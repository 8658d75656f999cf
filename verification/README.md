# A verified model of the resolver

A recursive DNS resolver walks from the root of the name space to a question, validates what it is
told with DNSSEC, and keeps answers in a cache. This project models the five parts of it whose
correctness is not visible from reading one function, and proves what they promise over every
input, every arrival order, every interleaving or every sequence of operations.

`dafny verify dfyconfig.toml` checks everything. There is one module per file.

| part | modules |
|---|---|
| names, records, what foreign code computes | `Collections`, `Names`, `Records` |
| signatures of one section | `Signatures`, `TtlBound` |
| denial of existence | `CanonicalOrder`, `Nsec`, `Nsec3`, `DenialSoundness`, `DenialExactness`, `DenialCompleteness` |
| validation of a response, chain of trust, queue | `Verifier`, `StageExactness`, `ReorderBuffer`, `Authenticator`, `ChainOfTrust`, `Downgrade`, `SignedChain`, `Answers`, `AuthQueue`, `EndToEnd` |
| the message cache | `CacheKeys`, `LruShard`, `DnsCache` |
| the resolution walk | `Domain`, `ZoneStore`, `Pool`, `Resolution`, `QueryBudget` |

How things are represented:

- A name is the sequence of its labels from the root down, so that "is an ancestor of" is "is a
  prefix of"; a label is its presentation text in octets, and `CanonicalOrder.Wire` the octets it
  stands for (section 5.1 of RFC 1035).
- Key tags, DS digests, signature checking and NSEC3 hashing are functions in `Records.Oracle`.
  What is assumed of them is written out: `Records.GoodOracle` (an empty RRset never verifies, no
  signature covers RRSIG records) and, for NSEC3, `Nsec3.Nsec3Zone.Interprets`.
- Code that changes things step by step is a method or a class, proved equal to a function on
  values (`View`, `Store`, `Drain`, `VerifyStage`); the theorems are about those functions.
- Concurrency is a state machine over atomic steps (`AuthQueue`, `QueryBudget`).
- The clock is a parameter. Network answers are functions of the number of readings made so far, and
  a walk leaves behind a log of the zones it visited and how it ended (`Resolution.Walk`), from which
  its outcome follows.

## Findings

Each of these is a proved statement about the code: an input that shows it, and the exact condition.

- The default signature policy judges by record type. `TypePolicyLeavesRecordsUncovered` shows a
  section it accepts in which a record has no verified signature; `CoverageIff` gives the exact
  condition for full coverage.
- A signature that is out of date or by another zone is not counted as a wildcard. Under the default
  policy an answer can therefore be Secure with labels to spare in an RRSIG record and nothing denied
  (`StaleExpansionIsOverlooked`); `PositiveSecureIff` has the exact condition, and the strict policy
  rules it out (`ExpandedRightly` in `SecureMeansAnchored`).
- The validity period of a signature is compared in plain arithmetic at both ends (`ValidityIsPlain`),
  not in the serial arithmetic of section 3.1.5 of RFC 4034.
- A signed referral without DS records makes any zone further down Insecure, not only the zone it
  refers to. `SiblingReferralDowngrades` is a run in which the next zone has DS records;
  `BreakProvesNextZoneIff` and `ReferralProvesNextZoneIff` say exactly when the accepted records
  prove that it has none. In the walk the zone entered is the one the validator looks up
  (`WalkEntersDeniedName`).
- A first zone without a key that matches a trust anchor makes the verdict Insecure
  (`UnanchoredZoneIsInsecure`); this is one of the three causes of an Insecure verdict, which are
  all there are (`NoSilentDowngrade`, an equivalence). Further down, missing keys under DS records
  make it Bogus (`StrippedKeysAreBogus`).
- A Secure denial is a denial of the last response's own question; the verdict is Secure whatever
  question was asked (`DenialSettlesAnyQuestion`). `DenialProvesQuestionIff` says exactly for which
  questions the accepted records are a proof.
- The code misreads names with an escape such as `\;`. In a zone in canonical order with the owners
  `e.`, `\;.e.` and `=.e.` its first record passes as proof that `=.e.` does not exist
  (`EscapedOwnerDeniesNeighbour`). Existing names are never denied exactly when owners
  (`NeverDeniedAsOwnerIff`) and query (`NeverDeniedAsQueryIff`) are spelled faithfully: with no escape
  but \DDD, and none for an upper-case letter.
- An NSEC record of a delegation passes as proof that a name of the child zone does not exist
  (`DelegationDeniesChild`). A covered name is outside the zone's authority exactly when the covering
  record is that of a delegation above it (`BelowCutIff`).
- An NSEC name-error proof looks at the wildcard in place of the first label. `NameErrorMissesWildcard`
  is a zone whose own record passes as proof for a name it would answer from a wildcard;
  `SynthesisDeniedIff` gives the exact condition for ruling such an answer out.
- A name covered by an NSEC record may still exist as an empty non-terminal
  (`CoveredEmptyNonTerminal`): exactly when the next name lies below it (`CoveredNameExistsIff`).
- Two or more errors collected by the queue are dropped (`SeveralErrorsAreDropped`): errors are
  lost exactly when at least two deliveries were refused and the rest is judged without an error
  (`ErrorsAreLostIff`).
- `canonicalCmp` does not fold an upper-case letter written as an escape
  (`EscapedUpperCaseIsNotFolded`) and does not undo an escape of one character
  (`EscapedSemicolonIsMisplaced`). It agrees with the order of section 6.1 of RFC 4034 about a name
  exactly when the name is spelled faithfully (`OrderAgreesIff`).
- Storing into a cache of fewer than 32 entries never returns (`CapacityLoopEndsIff`), the cap of a
  day on cache lifetimes never takes effect (`EntryTtlBounds`), and refreshing an entry of a full
  shard evicts another one (`RefreshEvicts`).
- The panic on an impossible child zone can be provoked by a reply exactly when the cursor is not
  ahead of the zone asked (`CanPanicIff`), which a delegation brings about exactly when it goes past
  the cursor and a deeper record points away from the question (`StaysAheadIff`);
  `RootReferralPanics` is such a walk from the root.
- The query budget is kept exactly when the limits do not let the 32-bit counter wrap
  (`BudgetHoldsIff`).

## Model

| member | source | states |
|---|---|---|
| `Signatures.RemainingIsBounded` | dnssec/authenticate_rrset.go:46-52 | For every 32-bit clock, a signature in its validity period has not expired, and the serial adjustment and conversion yield at most expiration minus now: exactly that, modulo one half-cycle |
| `Signatures.ValidityIsPlain` | dnssec/authenticate_rrset.go:36-39 | For every 32-bit clock a signature is in its validity period if and only if inception <= now <= expiration in plain arithmetic |
| `Signatures.TryKeys` | dnssec/authenticate_rrset.go:60-91 | The first key that fits and verifies is recorded; otherwise the error tells whether any key fitted |
| `Signatures.CheckSignature` | dnssec/authenticate_rrset.go:15-92 | One RRSIG is turned into a signature by the checks in order, with their errors, its TTL and its key |
| `Signatures.VerifiedIff` | dnssec/authenticate_rrset.go:26-91 | Verified if and only if signer, label count, time (inception and expiration) and some offered key are in order (section 5.3.1 of RFC 4035); the recorded key is such a key; and which of the five errors is recorded otherwise |
| `Signatures.WildcardIff` | dnssec/authenticate_rrset.go:15-43 | A signature is marked as an expanded wildcard if and only if its RRSIG record has fewer labels than its owner, is by the zone and in its validity period; its RRset is exactly the records of that owner and type |
| `Signatures.VerifiedTtlBound` | dnssec/authenticate_rrset.go:22-56 | The TTL of a verified signature is at most the RRSIG TTL, the original TTL, the time left and the TTL of every record in the set, and is one of them |
| `Signatures.Authenticate` | dnssec/authenticate_rrset.go:9-136 | One signature per RRSIG, and an error exactly when the two sets of name and type combinations differ in size |
| `Signatures.CountErrorIff` | dnssec/authenticate_rrset.go:94-135 | Over the records alone: no error if and only if as many owner and type pairs are signed as have to be, RRSIG records never and NS records of the authority only if some are |
| `Signatures.CountNameTypeCombinations` | dnssec/signatures.go:18-31 | The number of distinct owner and type pairs among the signatures |
| `Signatures.VerifyOneOrMore` | dnssec/signatures.go:43-120 | Accepts exactly when there is a signature and every signed type has a verified one; which error otherwise |
| `Signatures.VerifyAll` | dnssec/signatures.go:123-146 | Accepts exactly when there is a signature and all are verified; which error otherwise |
| `Signatures.Verify` | dnssec/signatures.go:34-39 | Accepts exactly by the configured policy |
| `Signatures.CoverageIff` | dnssec/authenticate_rrset.go:94-135 | With equal counts, every record that has to be signed lies in the set of a verified signature if and only if every signed set has a verified signature |
| `Signatures.CoverageByCounting` | dnssec/authenticate_rrset.go:94-135 | No error and accepted signatures leave no record uncovered: under the strict policy always, under the default one when each signed type has one owner |
| `Signatures.PolicyVerifiesSets` | dnssec/signatures.go:34-39 | What each policy implies for single RRsets |
| `Signatures.TypePolicyLeavesRecordsUncovered` | dnssec/signatures.go:68-70 | A section with two address records that the default policy accepts although one has no verified signature |
| `CanonicalOrder.DecodeEscaped` | dnssec/doe/functions.go:55-71 | Decoding yields the UTF-8 encoding of the code points a label spells |
| `CanonicalOrder.CompareNames` | dnssec/doe/functions.go:18-52 | The comparison loop computes the lexicographic order of decoded labels from the root down |
| `CanonicalOrder.CanonicalCmpIsTotalPreorder` | dnssec/doe/functions.go:18-52 | Antisymmetric up to decoded labels, transitive in all mixed forms |
| `CanonicalOrder.AncestorSortsFirst` | dnssec/doe/functions.go:18-52 | A proper ancestor sorts before its descendants |
| `CanonicalOrder.SubtreeIsInterval` | dnssec/doe/functions.go:18-52 | What lies between two names of a subtree belongs to it |
| `CanonicalOrder.Utf8KeepsOrder` | dnssec/doe/functions.go:55-71 | Encoding decoded octets as UTF-8 does not change their order |
| `CanonicalOrder.CanonicalCmpIsOctetOrder` | dnssec/doe/functions.go:18-75 | On faithfully spelled names the code computes the octet order of section 6.1 of RFC 4034 |
| `CanonicalOrder.UnderIsOctetUnder` | dnssec/doe/functions.go:18-75 | And sees which name is below which |
| `CanonicalOrder.OrderAgreesIff` | dnssec/doe/functions.go:18-75 | For every proper presentation form: the code's order agrees with the octet order, against all faithfully spelled names, if and only if the name has no escape but \DDD and none for an upper-case letter |
| `CanonicalOrder.UnfaithfulIsMisread` | dnssec/doe/functions.go:55-71 | Every label with another escape is decoded to something else than its octets, doubled backslashes before digits included |
| `CanonicalOrder.MisreadName` | dnssec/doe/functions.go:18-75 | Such a name is told apart from its own faithful spelling |
| `CanonicalOrder.EscapedUpperCaseIsNotFolded` | dnssec/doe/functions.go:55-71 | The shortest pair misplaced by a hidden letter |
| `CanonicalOrder.EscapedSemicolonIsMisplaced` | dnssec/doe/functions.go:55-71 | And by an escape of one character |
| `Nsec.VerifyCovered` | dnssec/doe/nsec.go:16-58 | True exactly when a record of the list covers the name, the record that closes the chain at the apex included |
| `Nsec.PerformQNameDoesNotExistProof` | dnssec/doe/nsec.go:8-10 | True exactly when the name and the wildcard in place of its first label are both covered |
| `Nsec.PerformExpandedWildcardProof` | dnssec/doe/nsec.go:12-14 | True exactly when the name is covered and the wildcard in place of its first label is not |
| `Nsec.TypeBitMapContainsAnyOf` | dnssec/doe/nsec.go:60-77 | Whether a record owns the name, and whether one of those lists any of the types |
| `Nsec.GenuineIffSorted` | dnssec/doe/functions.go:18-52 | A chain of faithfully spelled owners is in canonical order exactly when the code finds it sorted |
| `Nsec.CoveringIsBetween` | dnssec/doe/nsec.go:16-35 | In a chain in canonical order a covered name lies, by octets, strictly between consecutive owners and owns nothing; names spelled faithfully |
| `Nsec.NameErrorIsSound` | dnssec/doe/nsec.go:8-58 | A name-error proof from the records of a chain in canonical order: neither the name nor its sibling wildcard is an owner, wraparound included; names spelled faithfully |
| `Nsec.CoveredNameExistsIff` | dnssec/doe/nsec.go:16-35 | A covered name exists if and only if the next name lies below it |
| `DenialExactness.SynthesisDeniedIff` | dnssec/doe/nsec.go:8-58 | Genuine records rule out wildcard synthesis, in every zone they can come from, if and only if they cover the wildcard at the closest encloser or the name runs through it |
| `DenialExactness.ExistingParentDeniesSynthesis` | dnssec/doe/nsec.go:8-10 | An accepted proof does so when the parent of the name exists |
| `DenialExactness.NameErrorMissesWildcard` | dnssec/doe/nsec.go:8-10 | A genuine zone and an accepted proof for a name it would answer from a wildcard |
| `DenialExactness.CoveredEmptyNonTerminal` | dnssec/doe/nsec.go:16-35 | A genuine zone with a covered name that exists |
| `DenialExactness.NsecDeniesIff` | dnssec/doe/nsec.go:16-77 | Genuine NSEC records prove that a name has no records of a type, in every zone they can come from, if and only if they cover it or list it without the type |
| `DenialExactness.Nsec3DeniesIff` | dnssec/doe/nsec3.go:112-148 | The same for NSEC3 records: a match without the type, or a covered name on the way |
| `DenialExactness.EscapedOwnerDeniesNeighbour` | dnssec/doe/nsec.go:8-58 | A zone in canonical order and an accepted proof that one of its owners does not exist |
| `DenialExactness.NeverDeniedAsOwnerIff` | dnssec/doe/nsec.go:16-35 | An owner among faithfully spelled ones is never covered by its own chain if and only if it is spelled faithfully itself |
| `DenialExactness.NeverDeniedAsQueryIff` | dnssec/doe/nsec.go:16-35 | A query for an existing name of a faithfully spelled chain is never covered if and only if it is spelled faithfully |
| `DenialExactness.BelowCutIff` | dnssec/doe/nsec.go:16-35 | A covered name belongs to a child zone if and only if the covering record is that of a delegation above it |
| `DenialExactness.DelegationDeniesChild` | dnssec/doe/nsec.go:8-10 | A zone whose delegation record passes as proof that a name of the child zone does not exist |
| `Nsec.NoDataIsSound` | dnssec/doe/nsec.go:60-77 | A no-data proof from genuine records: the name is an owner without the types |
| `Nsec3.NewDenialOfExistence` | dnssec/doe/doe.go:28-48 | Records with an unknown hash or unknown flags are dropped, the others kept in order |
| `Nsec3.VerifyWildcardCovered` | dnssec/doe/nsec3.go:77-96 | The wildcard below the encloser is covered and matched by no record |
| `Nsec3.VerifyWildcardMatched` | dnssec/doe/nsec3.go:98-110 | Some record matches the wildcard below the encloser |
| `Nsec3.VerifyNextCloserNameCovered` | dnssec/doe/nsec3.go:112-130 | The next-closer name is covered and matched by none; opt-out exactly when a covering record says so |
| `Nsec3.TypeBitMapContainsAnyOf` | dnssec/doe/nsec3.go:132-148 | Whether a record matches the name, and whether a matching one lists any of the types |
| `Nsec3.FindClosestEncloser` | dnssec/doe/nsec3.go:150-225 | Succeeds if and only if an eligible record matches an in-zone suffix with a label; returns the longest such suffix whatever the record order, and the next-closer name |
| `Nsec3.Longest` | dnssec/doe/nsec3.go:211-225 | The contender with the longest text is the one with the most labels |
| `Nsec3.PerformClosestEncloserProof` | dnssec/doe/nsec3.go:8-25 | The four proof flags are those of the true encloser depth |
| `Nsec3.PerformExpandedWildcardProof` | dnssec/doe/nsec3.go:27-75 | True exactly when the next-closer name of the expanded wildcard is covered, and the wildcard is neither covered nor matched; out of range exactly for a label count of zero |
| `Nsec3.CoveredOnlyIsAbsent` | dnssec/doe/nsec3.go:77-130 | In a genuine chain without opt-out and with a collision-free hash a covered name is not in the zone |
| `Nsec3.EncloserIsTrueClosest` | dnssec/doe/nsec3.go:8-25 | The found encloser with its next-closer name denied is the deepest existing ancestor |
| `Nsec3.NoDataIsSound` | dnssec/doe/nsec3.go:132-148 | A match without the bits: the name exists and has none of the types |
| `Verifier.FindKeySigningKeys` | dnssec/verify_dnskey.go:10-50 | For each DS record, the first key it designates |
| `Verifier.EachDSContributes` | dnssec/verify_dnskey.go:21-29 | Every DS record that designates a key of the zone contributes the first such key |
| `Verifier.VerifyDNSKEYs` | dnssec/verify_dnskey.go:10-50 | Status, error and the key signatures written to the result |
| `Verifier.VerifyRRSETs` | dnssec/verify_rrset.go:10-32 | Status, error and the signatures of both sections written to the result |
| `Verifier.DelegationDenial` | dnssec/verify_delegating.go:10-79 | What the denial records prove about a delegation, NSEC before NSEC3 |
| `Verifier.ValidateDelegatingResponse` | dnssec/verify_delegating.go:10-79 | Status, error, DS records and denial state of a delegation |
| `Verifier.NegativeDenial` | dnssec/verify_negative.go:14-78 | What the denial records prove about a question, in the order tried; `DenialCompleteness` says which records lead to which state |
| `Verifier.ValidateNegativeResponse` | dnssec/verify_negative.go:9-79 | Status, error and denial state of a negative response |
| `Verifier.CheckWildcards` | dnssec/verify_positive.go:19-58 | How many wildcard signatures were met, up to two, and what the first one proved, or that it leads to an index out of range |
| `Verifier.ValidatePositiveResponse` | dnssec/verify_positive.go:8-65 | Status, error, DS records and denial state of a positive response, by the specification that `StageExactness.PositiveSecureIff` characterises; the panic is an error of its own |
| `Verifier.Verify` | dnssec/verify.go:8-67 | The stages in order: which one decides, and the result they leave |
| `StageExactness.SignatureStages` | dnssec/verify.go:8-41 | Insecure if and only if there are no DS records or no key they designate; Secure only if all signatures pass; and a response whose signatures pass is classified |
| `StageExactness.DenialRecordsIff` | dnssec/doe/doe.go:28-48 | A denial rests on exactly the signed NSEC records of the authority section, and the signed NSEC3 records there with hash algorithm 1 and flags 0 or 1 |
| `StageExactness.PositiveSecureIff` | dnssec/verify_positive.go:8-65 | Over RRSIG fields: a positive answer is Secure if and only if its signatures pass and no valid RRSIG record has fewer labels than its owner, or exactly one has and an NSEC or NSEC3 proof of the expansion holds; the denial state names the proof |
| `StageExactness.DelegatingSecureIff` | dnssec/verify_delegating.go:10-79 | A referral is Secure if and only if its signatures pass and it has signed DS records, or its NS records have one owner and the absence of DS records there is proved; the DS records handed down are exactly the signed ones |
| `StageExactness.NegativeSecureIff` | dnssec/verify_negative.go:9-79 | A response with an SOA record is Secure if and only if its signatures pass and its question is denied |
| `StageExactness.EmptyIsNotSecure` | dnssec/verify.go:65-66 | A response that could not answer, refer or deny is never Secure |
| `StageExactness.SignatureErrors` | dnssec/verify.go:15-41 | Which error a response whose signatures do not pass is refused with |
| `StageExactness.ClassifiedErrors` | dnssec/verify.go:43-66 | Which error each kind of response whose signatures pass is refused with, from its records; none when Secure |
| `StageExactness.ExpansionErrors` | dnssec/verify_positive.go:21-64 | A second expansion, or an expansion without proof, and the error for each |
| `DenialSoundness.Nsec3NxDomainIsSound` | dnssec/verify_negative.go:29-76 | An Nsec3NxDomain verdict: the name does not exist, the encloser is the true one, and the wildcard there is absent or lacks the type and CNAME |
| `DenialSoundness.Nsec3NoDataIsSound` | dnssec/verify_negative.go:29-34 | An Nsec3NoData verdict: the name exists without the type and without CNAME |
| `DenialSoundness.NsecNxDomainIsSound` | dnssec/verify_negative.go:17-27 | An NsecNxDomain verdict: neither the name nor its sibling wildcard owns records |
| `DenialSoundness.NsecNoDataIsSound` | dnssec/verify_negative.go:17-21 | An NsecNoData verdict: the name owns records, without the type and without CNAME |
| `DenialSoundness.NsecWildcardIsSound` | dnssec/verify_positive.go:39-44 | An NsecWildcard verdict: the query name owns no records |
| `DenialSoundness.Nsec3WildcardIsSound` | dnssec/verify_positive.go:46-51 | An Nsec3Wildcard verdict: no name from below the wildcard's parent down to the answer's owner exists |
| `DenialSoundness.MissingDSIsSound` | dnssec/verify_delegating.go:10-79 | A missing-DS verdict: the delegation is listed with NS and without DS |
| `DenialCompleteness.NsecDoeIff` | dnssec/verify_negative.go:17-27 | No data if and only if the name is listed and nowhere with the type or a CNAME; failing that, a name error if and only if both names are covered |
| `DenialCompleteness.WholeChainDecides` | dnssec/doe/nsec.go:8-77 | With a whole NSEC chain at hand: no data if and only if the name owns records without the type, a name error if and only if neither it nor its sibling wildcard owns any, an accepted expansion if and only if only the wildcard does |
| `DenialCompleteness.Nsec3DoeIff` | dnssec/verify_negative.go:29-78 | Each NSEC3 state if and only if the records show it: no data for a match without the type; opt-out for a DS question only, in an opt-out span; and for any other question a name error whenever the encloser is matched, the next-closer name covered and the wildcard denied, opt-out or not |
| `DenialCompleteness.DelegationDoeIff` | dnssec/verify_delegating.go:50-78 | Which state the records of a genuine chain lead to for a delegation: listed without DS, matched without DS, in an opt-out span, or nothing |
| `DenialCompleteness.Nsec3ExpansionIff` | dnssec/doe/nsec3.go:27-75 | A wildcard answer is accepted on NSEC3 records that show the next-closer name absent and neither match nor cover the wildcard |
| `ReorderBuffer.Confluence` | dnssec/authenticator.go:65-84 | For any processing step: every arrival order of inputs with distinct slots ends in the results and error of processing them in slot order, retries and gaps included |
| `ReorderBuffer.ArrivalsInGeneral` | dnssec/authenticator.go:38-86 | For any arrivals, repeated and refused ones included: the results and error of the admitted ones in slot order, and one error for each refusal unless the chain itself fails |
| `ReorderBuffer.ChainInvariant` | dnssec/authenticator.go:88-163 | What each processing step keeps holds of the whole chain |
| `Authenticator.Judge` | dnssec/result.go:20-112 | The scans and the final switch compute the verdict function, which `SecureVerdictIff`, `OtherVerdicts` and `BogusDecides` characterise; at the re-check of the last state it is always Secure |
| `Authenticator.SecureVerdictIff` | dnssec/result.go:22-112 | The verdict is Secure if and only if there are results, all are Secure, and the last one is one of the four denials, or has no SOA record and a record of the question's name, of its type or a CNAME |
| `Authenticator.OtherVerdicts` | dnssec/result.go:36-70 | State, denial and error reported for the first result that is not Secure |
| `Authenticator.BogusDecides` | dnssec/result.go:30-34 | The first Bogus result decides, with its error |
| `Authenticator.NothingIsKnown` | dnssec/result.go:7-25 | Without results, and for a chain that fails with an error, the verdict is Unknown with that error |
| `Authenticator.ProcessExactly` | dnssec/authenticator.go:88-163 | When a response is rejected, with which error, and what is recorded for it otherwise |
| `Authenticator.RefuseIff` | dnssec/authenticator.go:40-48 | A response is admitted if and only if its zone and its question are ancestors of the target name |
| `Authenticator.Authenticator.constructor` | dnssec/authenticator.go:10-33 | An empty buffer with one slot more than the question has labels |
| `Authenticator.Authenticator.AddResponse` | dnssec/authenticator.go:38-86 | Refuses, stores or processes exactly as the buffer specification; the slot is always in range |
| `Authenticator.Authenticator.Result` | dnssec/result.go:7-112 | Drains the buffer past its gaps and judges the results |
| `Authenticator.ArrivalOrderDoesNotMatter` | dnssec/authenticator.go:38-103 | One response per zone above the question, in any order: the same results list and triple as strictly from root to leaf, and every error returned on the way is the final one |
| `Authenticator.ZoneChecksNeverFire` | dnssec/authenticator.go:94-103 | Along such a chain the subdomain and same-name checks never fire |
| `ChainOfTrust.StageOutcome` | dnssec/verify.go:8-67 | What every outcome guarantees: a Secure one that its keys, signatures and counts are in order and where its denial comes from, an Insecure one that there are no DS records above or no key they designate |
| `ChainOfTrust.ChainIsLinked` | dnssec/authenticator.go:88-163 | In every run each result is linked to the DS records of the one before |
| `ChainOfTrust.SecureMeansAnchored` | dnssec/result.go:30-111 | Strict policy, verdict Secure: the chain starts at the root, every result is Secure, DS owners name the next zones, every record that has to be signed rests on a trust anchor through a path of valid signatures and matching DS records, an RRSIG record with labels to spare is the only one of its answer and its expansion is proved, and the question is answered by an anchored record or the last response is a verified denial of its own question |
| `ChainOfTrust.SecureSettlesQuestion` | dnssec/result.go:82-111 | An anchored record of the question's name, of its type or a CNAME, or a denial |
| `SignedChain.WellSignedChainIsSecure` | dnssec/authenticator.go:88-163 | Completeness: nested zones, each signed under the DS records handed down by the one above, referrals with DS records up to a last response that answers the question or denies its own, make the verdict Secure |
| `SignedChain.SignedAliasIsSecure` | dnssec/result.go:106-108 | A run from signed input to a Secure verdict, for every child of the root: its signed alias below the root's signed referral |
| `SignedChain.StaleExpansionIsOverlooked` | dnssec/authenticate_rrset.go:36-43 | An answer that is Secure under the default policy with labels to spare in an expired RRSIG record and no denial |
| `Answers.SecureDenialIsRight` | dnssec/result.go:82-86 | A Secure denial of the question that was asked is right over genuine records |
| `Answers.DenialProvesQuestionIff` | dnssec/result.go:82-86 | The records of a Secure denial prove that there is nothing for a question if and only if they cover its name or list it without the type |
| `Answers.DenialSettlesAnyQuestion` | dnssec/result.go:82-86 | A Secure denial makes the verdict Secure for any question |
| `ChainOfTrust.InsecureStays` | dnssec/verify.go:15-18 | Once a result is Insecure all later ones are |
| `ChainOfTrust.NoSilentDowngrade` | dnssec/result.go:30-91 | The verdict is Insecure if and only if the first zone offers no key that matches an anchor, or the last Secure result before the break has no DS records and a verified denial of a delegation or of a DS question, or the last result is an NSEC3 opt-out of a delegation or of a DS question |
| `ChainOfTrust.UnanchoredZoneIsInsecure` | dnssec/result.go:45-48 | A first response without signatures, of a zone without a key for the anchors, is Insecure |
| `ChainOfTrust.StrippedKeysAreBogus` | dnssec/result.go:50-69 | Where the link above has DS records, a result other than Secure makes the verdict Bogus |
| `Downgrade.BreakDeniesDS` | dnssec/result.go:40-70 | At every break, over genuine records, the name the denial was made for has no DS records |
| `Downgrade.BreakIsJustified` | dnssec/result.go:50-67 | If that name is the next zone, the next zone has no DS records; a no-data denial is always made for the next zone |
| `Downgrade.BreakProvesNextZoneIff` | dnssec/result.go:52-54 | The accepted records prove the next zone unsigned if and only if they cover it or list it without DS |
| `Downgrade.ReferralProvesNextZoneIff` | dnssec/verify_delegating.go:10-58 | A referral with one NSEC record proves an existing next zone unsigned if and only if it is the delegation of the referral |
| `Downgrade.SiblingReferralDowngrades` | dnssec/result.go:52-54 | A run whose verdict is Insecure although the parent has DS records for the next zone |
| `AuthQueue.ReachableKeepsInv` | auth.go:43-111 | The invariant of the queue holds in every reachable state |
| `AuthQueue.QueueIsSafe` | auth.go:43-111 | In every interleaving nothing is sent after close, the count equals live links plus unfinished messages, and when the verdict is read every message sent has been handled exactly once and the worker is idle, so the error list is never shared |
| `AuthQueue.NeverStuck` | auth.go:52-92 | With a positive count some goroutine can always move |
| `AuthQueue.InternalStepsAreBounded` | auth.go:52-92 | Each such move uses up work, so the wait ends |
| `AuthQueue.VerdictIgnoresScheduling` | auth.go:94-111 | Two complete runs that delivered the same messages return the same triple |
| `AuthQueue.VerdictOnAnything` | auth.go:83-111 | For any deliveries: a single collected error is returned, otherwise the verdict is that of the admitted responses from root to leaf |
| `AuthQueue.ErrorsAreLostIff` | auth.go:99-110 | Errors are collected and the verdict carries none if and only if at least two deliveries were refused and the admitted ones are judged without an error |
| `AuthQueue.SeveralErrorsAreDropped` | auth.go:99-110 | A response delivered twice is an error, delivered three times it is judged as if once |
| `EndToEnd.SecureRunIsAnchored` | auth.go:52-111 | From any interleaving and any deliveries: a Secure verdict means that the admitted responses form an anchored chain from the root, with every wildcard rightly expanded, that settles the question |
| `TtlBound.ResultTtl` | dnssec/result.go:147-164 | The lowest TTL of verified signatures for a type under the cap, attained, or none |
| `TtlBound.ComputeResultTtl` | dnssec/result.go:147-164 | The accumulating loop computes it |
| `TtlBound.LookUp` | resolver_exchange.go:278-289 | The remembered value of a type is the computed one |
| `TtlBound.CapSection` | resolver_exchange.go:282-294 | Every record in place, with its TTL lowered to the cap of its type and nothing else changed |
| `TtlBound.FinaliseTtls` | resolver_exchange.go:279-311 | Both sections, only when the verdict is Secure |
| `TtlBound.SecureTtlsAreBounded` | resolver_exchange.go:262-311 | In a Secure result a record of a verified type leaves with a TTL within all bounds of section 5.3.3 of RFC 4035 and the configured maximum, and equal to one of them; other records keep theirs |
| `CacheKeys.KeyIsInjective` | server.go:373 | The text key determines name, type and class, dashes notwithstanding |
| `CacheKeys.NegativeKeyIsInjective` | server.go:469 | The same for negative keys |
| `CacheKeys.KeysNeverCollide` | server.go:469 | No positive key is a negative key |
| `CacheKeys.ParseRoundTrip` | server.go:568-578 | Parsing gives back exactly the positive keys of names without a dash |
| `LruShard.StoredIsListed` | server.go:462-465 | In a coherent shard every stored key has its list element |
| `LruShard.EnsureCapacityKeeps` | server.go:506-512 | Making room leaves a coherent shard with room, a prefix of the list, and unchanged entries |
| `LruShard.CapacityLoopEndsIff` | server.go:506-512 | The eviction loop ends if and only if the shard's share is positive |
| `LruShard.StoreKeeps` | server.go:400-465 | Storing keeps coherence and capacity; other entries stay as they were or are evicted |
| `LruShard.RefreshEvicts` | server.go:409-465 | Replacing an entry of a full shard evicts the least recently used one, unless that is the entry itself |
| `LruShard.LookUpKeeps` | server.go:372-397 | A look-up finds exactly a stored live entry, and alters none |
| `LruShard.CleanIsCoherent` | server.go:596-615 | Cleaning keeps coherence |
| `LruShard.CacheShard.EvictEntry` | server.go:521-529 | The element leaves the list and both maps |
| `LruShard.CacheShard.EvictOldest` | server.go:514-519 | The last element, if any, is evicted |
| `LruShard.CacheShard.MakeRoom` | server.go:506-512 | The loop computes the capacity specification |
| `LruShard.CacheShard.StoreEntry` | server.go:409-465 | Makes room, replaces an entry under the key, puts the new one in front |
| `LruShard.CacheShard.Find` | server.go:379-397 | Moves a live entry to the front, evicts an expired one |
| `LruShard.CacheShard.CleanExpired` | server.go:599-614 | In any order of visiting, exactly the entries past their expiry are removed |
| `DnsCache.ComputeTtl` | server.go:411-446 | The lifetime of a message: the lowest TTL among all its records if that is at least a minute and less than an hour, an hour if none is less, a minute if it is less but not zero, five minutes if it is zero |
| `DnsCache.LifetimeIff` | server.go:411-446 | Every message has exactly one lifetime so described, and it is the one computed |
| `DnsCache.EntryTtlBounds` | server.go:411-446 | Between a minute and an hour; outlives no record if and only if none has less than a minute |
| `DnsCache.ReachableShardOk` | server.go:366-370 | After any run a shard is coherent, within its share, and holds only keys that hash to it |
| `DnsCache.HitIsLatestSet` | server.go:372-397 | Over any run, a hit is the message of the latest set for exactly that question with only the identifier changed, strictly before the lifetime its records give it has passed; negative entries never answer |
| `DnsCache.MissMeansNoLiveEntry` | server.go:372-397 | A look-up misses if and only if no shard holds a live entry for the question |
| `DnsCache.VictimWasOvertaken` | server.go:506-519 | A key is evicted for room only if a share less one of other keys of its shard was set or hit since |
| `DnsCache.CacheIsTimedMap` | server.go:372-504 | For a question not so overtaken the cache is the simple timed map: it answers with the latest set until the lifetime its records give it has passed, and otherwise not |
| `DnsCache.EntryIsFiled` | server.go:449-504 | A positive entry is filed under its key until its lifetime has passed, a negative one under its own key for five minutes |
| `DnsCache.CleanedExactly` | server.go:596-615 | Cleaning drops exactly the entries whose expiry lies in the past |
| `DnsCache.ListIsOrderedByUse` | server.go:385 | After any run each list is ordered by last set or hit |
| `DnsCache.VictimIsLeastRecentlyUsed` | server.go:506-519 | A capacity victim was last used before everything that stays |
| `DnsCache.SizeIsBounded` | server.go:541-549 | The shards together hold at most the configured size |
| `DnsCache.ShardDomains` | server.go:566-581 | Exactly the live positive questions of a shard whose names have no dash |
| `DnsCache.DNSCache.constructor` | server.go:94-110 | Thirty-two distinct empty shards, whatever the size; ready for use from a size of thirty-two |
| `DnsCache.DNSCache.Set` | server.go:400-465 | Extends the run by a set; the shards hold what the run amounts to |
| `DnsCache.DNSCache.SetNegative` | server.go:468-504 | Extends the run by a negative set |
| `DnsCache.DNSCache.Get` | server.go:372-397 | Extends the run by a look-up and returns its answer |
| `DnsCache.DNSCache.CleanExpired` | server.go:596-615 | Extends the run by a cleaning |
| `DnsCache.DNSCache.Clear` | server.go:551-559 | Extends the run by a clearing |
| `DnsCache.DNSCache.Size` | server.go:541-549 | The sum over the shards, at most the configured size |
| `DnsCache.DNSCache.GetAllDomains` | server.go:561-585 | Exactly the questions without a dash that a look-up would answer now |
| `Domain.Domain.constructor` | domain.go:17-25 | The canonical name with one index per suffix, the root first |
| `Domain.Domain.Current` | domain.go:46-54 | The suffix at the cursor, the full name past the end |
| `Domain.Domain.WindTo` | domain.go:28-43 | Succeeds exactly for an ancestor not yet passed, and stops on it |
| `Domain.Domain.Gap` | domain.go:74-89 | Exactly the names from the cursor to the parent of a deeper ancestor, never out of range |
| `ZoneStore.Zones.constructor` | resolver.go:38-42 | A good store that holds the root |
| `ZoneStore.Zones.GetZoneList` | zones.go:22-60 | The live zones down to the first that does not continue the chain |
| `ZoneStore.ZoneListEndsAtRoot` | zones.go:22-60 | In a good store that list is a parent-linked chain of live ancestors ending at the root, and leaves no live one out above the cut |
| `ZoneStore.Zones.Get` | zones.go:62-80 | The zone if known and live |
| `ZoneStore.Zones.Add` | zones.go:82-90 | Filed under its canonical name; a zone below its parent keeps the store good and the root in place |
| `ZoneStore.Clone` | zone.go:48-59 | Panics exactly unless the name is strictly below the parent; otherwise a well-filed zone |
| `Pool.FindAddressesForHostname` | pool.go:236-257 | The address records of the host by family, and their lowest TTL |
| `Pool.HostsAreConserved` | pool.go:125-229 | After construction and any enrichments each host lacks an address or owns one, never both, and no address is lost |
| `Pool.EnrichedKeepsPartition` | pool.go:175-229 | One enrichment keeps that division |
| `Pool.ServersAreRecords` | pool.go:186-212 | The servers added are exactly the address records of the hosts looked for, name and address |
| `Pool.PoolExpiresFirst` | pool.go:125-173 | A new pool is kept as long as the shortest-lived of its name server records and of the addresses of its hosts, and no longer than the maximum |
| `Pool.RoundRobinIsFair` | pool.go:54-70 | n consecutive requests reach each of n servers exactly once |
| `Pool.NameserverPool.constructor` | pool.go:125-173 | Hosts, addresses, counters and expiry from the referral |
| `Pool.NameserverPool.Enrich` | pool.go:175-229 | Addresses found are appended, their hosts leave the list, counters follow, a pool without expiry keeps none |
| `Pool.NameserverPool.GetIPv4` | pool.go:54-70 | The server whose turn it is, always in range |
| `Pool.NameserverPool.GetIPv6` | pool.go:72-88 | The same for the other family |
| `Pool.NameserverPool.TakeTurns` | pool.go:54-70 | Any number of consecutive requests follow the turns |
| `Pool.NameserverPool.GetStatus` | pool.go:97-123 | Empty exactly without hosts and addresses, primed exactly with a usable address, in need of more exactly below the desired number with hosts left |
| `Resolution.FindDeepestOwner` | resolver_exchange.go:186-192 | The first of the deepest record owners under the zone |
| `Resolution.GapIsSafeIff` | resolver_exchange.go:203-223 | No SOA answer can cause the panic if and only if the gap is empty or the zone lies strictly above the cursor |
| `Resolution.CanPanicIff` | resolver_exchange.go:173-226 | Some reply and SOA answers make the program panic if and only if the cursor is not ahead of the zone asked |
| `Resolution.StaysAheadIff` | resolver_exchange.go:186-254 | After a delegation on the way the cursor is ahead of the new zone if and only if it was that deep already or the deepest record owner is on the way |
| `Resolution.MisalignedReplyCanPanic` | resolver_exchange.go:186-254 | A delegation past the cursor with a deeper record off the way leaves the walk where a reply can make it panic |
| `Resolution.RootReferralPanics` | resolver_exchange.go:173-254 | Such a walk from the root: the referral, the cursor, the gap and the SOA answers |
| `Resolution.OwnSoaPanics` | resolver_exchange.go:203-223 | A zone that is asked for its own name and reports its SOA panics |
| `Resolution.WalkEntersDeniedName` | resolver_exchange.go:230-238 | The delegation the walk follows is the one the validator looks for in the denial records |
| `Resolution.NoPanicBelow` | resolver_exchange.go:203-223 | From a zone strictly above the cursor no clone panics, and the walk stays on the question's ancestors |
| `Resolution.DelegationReached` | resolver_exchange.go:186-223 | After an aligned delegation the cursor is at least as deep as the new zone |
| `Resolution.LinksDescend` | resolver_exchange.go:203-223 | The zones a DS link is asked for while a gap is filled get deeper one by one |
| `Resolution.DeliveredOnce` | resolver_exchange.go:155-162 | Deliveries in that order are never two for the same zone |
| `Resolution.WorstVerdictWins` | dnssec/const.go:31-50 | The verdict of followed aliases is the worst of all |
| `Resolution.TargetOrderDoesNotMatter` | cname.go:86-101 | Verdict, response code and authority do not depend on the order in which targets finish |
| `Resolution.RecordsAreMerged` | cname.go:87-91 | Section by section exactly the records of the answer and of all followed targets |
| `Resolution.PendingIff` | cname.go:35-45 | An alias is followed if and only if the answer has neither the type asked for nor an alias at its target |
| `Resolution.TargetIsAsked` | cname.go:40-48 | For each alias the target is asked for, with the type of the question |
| `Resolution.FinalExactly` | resolver_exchange.go:327-382 | Which error a response fails with, and otherwise its code, its mark and its records: all of them, or none for suppressed Bogus data |
| `Resolution.Resolver.Resolve` | resolver_exchange.go:15-29 | One query: at most the configured number of iterations pass the check, the store stays good, no panic when delegations are aligned; the outcome is one that the logged way the walk ended can have |
| `Resolution.Resolver.Start` | resolver_exchange.go:80-106 | The walk starts on a live known zone, winding to it always succeeds, and the DS links are for zones strictly above it |
| `Resolution.Resolver.Exchange` | resolver_exchange.go:31-131 | Terminates; every call spends budget before it starts another, and an exhausted budget refuses it outright; the store stays good, no zone is lost, the root stays; when delegations are aligned there is no panic and at most one response is delivered for each zone above the question; the outcome is one that the logged way the walk ended can have, the log is that of a walk from the head of the known zones, and all zones in it are in the store |
| `Resolution.ResponseHasReply` | resolver_exchange.go:122-127 | A response is exactly the final form of a reply, no delegation, of the zone asked last, merged with what its followed targets yielded |
| `Resolution.FirstReplyDecides` | resolver_exchange.go:108-169 | Within budget, if the first zone to be asked replies with a message that is no delegation and has no alias to follow, the outcome is exactly its final form under the verdict; if it fails or is empty, the error says so |
| `Resolution.FailureHasCause` | resolver_exchange.go:31-254 | For each of the ten failures the way the walk ended |
| `Resolution.EndingDecides` | resolver_exchange.go:108-150 | The outcome of each way to end without a message: budget, labels, no reply, panic; and of a target found in the cache |
| `Resolution.ConcludedFailure` | resolver_exchange.go:316-330 | The three ways a final reply fails, and the error for each: all alias targets failed, the highest response code, the validation |
| `Resolution.DeadEndFailure` | resolver_exchange.go:228-254 | The three ways a delegation leads nowhere, and the error for each: no usable NS owner, the zone itself, or a pool for which neither the glue nor the look-ups gave an address |
| `Resolution.VisitsAreOnTheWay` | resolver_exchange.go:104-128 | The first zone visited is the head of the known zones; each later one is the known zone at the cursor or the one the zone asked before referred to |
| `Resolution.Resolver.WalkDown` | resolver_exchange.go:108-130 | The loop: the outcome follows from the reply that ended it, from the budget, or from the labels running out |
| `Resolution.Resolver.VisitLabel` | resolver_exchange.go:113-122 | A known zone is entered without a reading, otherwise the zone is asked, exactly when none is known or the name is the full one; the cursor never falls behind the zone |
| `Resolution.Resolver.ResolveLabel` | resolver_exchange.go:133-171 | A final response explained by the reply, or the zone it referred to, no deeper than the cursor; a reply that is no delegation ends the walk at once; what is delivered goes strictly down from the zone asked |
| `Resolution.Resolver.CheckForMissingZones` | resolver_exchange.go:173-226 | The zone and cursor are those of the specification for the SOA answers read; the cursor reaches the deepest owner on the way; no panic from ahead |
| `Resolution.Resolver.FillOne` | resolver_exchange.go:206-219 | A missing name that has a SOA is cloned and filed, one that has none is skipped |
| `Resolution.Resolver.ProcessDelegation` | resolver_exchange.go:228-254 | The next zone is the owner of the first NS record, strictly below and filed; otherwise the failure says why |
| `Resolution.Resolver.CreateZone` | zone_factory.go:10-53 | A well-filed zone strictly below its parent; or the error, and that neither the glue nor the look-ups gave an address |
| `Resolution.Resolver.EnrichPool` | zone_factory.go:55-110 | The hosts without an address are looked up, as many as desired, in each family; fails exactly when no look-up has an answer or none gave a usable address |
| `Resolution.LookUpsIff` | zone_factory.go:60-84 | Exactly the first hosts without an address, as many as desired, for the first family and, if it can be used, the second |
| `Resolution.Resolver.FinaliseResponse` | resolver_exchange.go:256-382 | The outcome is the conclusion from the reply, the verdict read and the followed targets: aliases are followed for other questions than CNAME; unsuccessful codes and failed validation are errors; where the verdict is enforced only Secure data is marked authentic and Bogus data leaves as a server failure, without records if suppressed |
| `Resolution.Resolver.FollowAliases` | cname.go:15-108 | Every pending target is put in turn; the response merged with all that succeeded, or an error exactly when there were targets and all failed |
| `Resolution.Resolver.ResolveTargets` | cname.go:35-84 | Each target from the cache or by a nested walk; the responses are those that succeeded, in order |
| `QueryBudget.QueriesAreBounded` | resolver_exchange.go:108-128 | In every interleaving of nested walks at most the configured number of iterations pass, the 32-bit counter does not wrap, and calls and steps have a bound fixed in advance |
| `QueryBudget.BudgetHoldsIff` | resolver_exchange.go:108-111 | The budget is kept in every interleaving if and only if the limits do not let the counter wrap |
| `QueryBudget.NoEndlessRun` | resolver_exchange.go:57-61 | No query goes on for ever |

## Left out

- Network clients, timeouts and races against real time (`fast_pool.go`, `fast_resolver.go`, `nameserver.go`, `ipv6.go`, `pool_exchange.go`).
- The server around the cache (`processQuery`, `validateDNSSEC`, prefetching, statistics), and the counters and use frequencies the cache keeps for statistics only.
- Configuration, root hints, tracing, type and code name tables: data and wiring.
- Cryptography, key tags, digests and NSEC3 hashing: functions with stated contracts.
- Error texts and wrapping; an error is a tag.
- Data races between cache look-ups: operations take place one at a time.
- Several clock readings within one operation: one reading is taken for each validation, look-up, cleaning or listing.
- Expiry of a zone in the middle of a walk: which zones are alive is fixed for a query.
- Fetching DNSKEY records: what a zone's keys are is part of the zone.
- The authenticator inside the walk: the walk receives a verdict from outside; `AuthQueue` and `ChainOfTrust` say what it means.
- Trimming of sections and removal of duplicates at the end of `finaliseResponse`; a response with both a message and an error counts as the error.
- Signatures.CoverageByCounting: for the default policy it assumes one owner per signed type, because the code judges by type; `CoverageIff` has the exact condition.
- Nsec.NameErrorIsSound: for faithfully spelled names, because the code misreads others (`NeverDeniedAsOwnerIff`, `NeverDeniedAsQueryIff`); it speaks of the wildcard in place of the first label only, because that is the one the code checks (`SynthesisDeniedIff` has the other).
- Downgrade.BreakIsJustified: for a denied delegation it needs the next zone to be that delegation, because the code does not compare them.
- Verifier.ValidatePositiveResponse: where the program panics on a wildcard signature with a Labels value of 0, the model reports Bogus with an error of its own.
- TtlBound.SecureTtlsAreBounded: the TTLs of RRSIG records themselves are not bounded, because the code lowers a record by the signatures for its own type and no signature covers RRSIG.
- Resolution.Resolver.Exchange: nested walks run one after another and the counter is unbounded; `QueryBudget` covers interleavings and the 32-bit counter.
- Resolution.Resolver.EnrichPool: the three-second timeout is the case in which no host gave an address; background enrichment is run in place, and the state of the pool is read after all look-ups instead of after the first good one.
- QueryBudget.QueriesAreBounded: the number of calls one iteration starts is a parameter; the bounds are for limits that do not let the counter wrap, which `BudgetHoldsIff` shows to be necessary.
- Caching of alias targets: what the cache returns for a target comes from outside.
