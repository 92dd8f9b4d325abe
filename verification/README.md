# A verified model of the EFDI router federation

This project models, in Dafny, the parts of the EFDI repository whose correctness is
hardest to see from reading one function at a time, and proves what they promise for every
input, every run and every reachable state. Run `dafny verify dfyconfig.toml` here to check
all of it.

## What is modelled

**Delegated trust.** `KeyScope`, `Identity` and `Grant` model the key-scope language, router
identities and signed delegation grants. `TrustChain` is the verifier that folds a chain of
grants from a local anchor. `TrustStore` is the persistent store with its transitions
(accept, enroll, quarantine, restore, decommission) and an invariant over all of them;
`TrustRegistry` is the same store as an object with tables that are updated in place.
`TrustExport` exports the lineage of an authority and ties the exported proof to the
verifier, and `DeepLineage` reaches a lineage that is too long for it. `Enrollment` adds
single-use invitations and the grants built for children, `EnrollmentBundle` the trust chain
that a child is handed with its enrollment, and `TrustBootstrap` the child filling its own
empty store from that chain.

**Access control.** `AclPolicy` is the compiler from direct peers to rules, subjects and
policies; `AclMeaning` evaluates the compiled document (deny by default, a matching deny
overrides) and proves exactly what it lets through. Every statement about keys holds for
both readings of `**`: `strict` says whether it stops at chunks that begin with `@`.
`CurrentPolicy` gathers the peers from the trust store and says when that can succeed.

**The federated configuration protocol.** `FederationCrypto` separates the purposes of
signatures; `FederationRelay` is one relay hop; `FederationApply` is the target of a push,
around the activation transaction of `ConfigApply`; `FederationPaths` is the bounded path
search; `ConfigRender` is the rendering of the text that is pushed, and
`FederationDelivery` puts the three together for a push along any number of hops.
`PartnerName` is the extraction of a router's own name from a rendered text, and
`RouterNames` where enrollment places a router. `FederationNetwork` runs all routers together
over a network that may duplicate, replay, reorder, drop and misdeliver, but not forge. Its
`World` gives the routers their names, and each its own data prefix, at which it reads its
name out of whatever text arrives; routers register and trust only names that enrollment can
have given.

**Streams, caches and remote pictures.** `AsterixFrames` splits and reads ASTERIX data
blocks (EUROCONTROL-SPEC-0149 Part 1), `DuplicateFilter` is the cache with a lifetime and a
size limit, `AsterixRelay` the relay around both, and `SampleStream` the chunked reader.
`Picture` is a subscriber that applies puts and tombstones; `ZoneMirror`,
`ThreatSuppression` and `CommunityFeed` are the three publishers that keep its picture equal
to theirs. `Reconcile` is the process reconciler.

`Text`, `Json`, `Results` and `Sequences` hold shared helpers.

## How things are represented

- Signatures are ideal and hashes free of collisions: a signature names who signed what for
  which purpose, and a fingerprint or digest is the value it was taken of.
- Classes have the fields that the source updates; each method is proved against a function
  of the old state, and the theorems are about those functions. The specification of a
  network, a store or a desk as a whole is a value that events change.
- Time is a parameter, `int` for certificates and `real` for monotonic clocks; one reading of
  the clock serves a whole call. Outcomes of I/O (a write fails, a router does not restart, a
  process cannot be spawned) are parameters as well.
- `hide` in a body only keeps a definition out of the way of the solver.

## What turned out not to hold as written

- A configuration that is misdelivered to another child of its signer can be activated there.
  A router looks for its name at its own data prefix and falls back to the last segment of the
  data root, so it may read its own name out of a text for a sibling. Where an unnamed root
  publishes data without a prefix, the text for `a/b` is activated by `b`
  (`FederationNetwork.SlotRootMisdelivers`). Every activation is authorised if and only if no
  push can be misread by a sibling of its target (`FederationNetwork.SafetyExactly`), which for
  the names and prefixes of a federation is `FederationNetwork.FleetSafe`. A router by itself
  is safe from all siblings it might ever get exactly when `PartnerName.SafeAt` says so
  (`PartnerName.NeverMisreadExactly`). One non-empty data prefix for all is enough
  (`FederationNetwork.OnePrefixIsSafe`), and so is none at all under a named root
  (`FederationNetwork.PrefixFreeExactly`).
- A router reads its pushed name back only under the condition of
  `PartnerName.PartnerReadsBack`. Equal data prefixes are not enough: on the empty one a name
  of two segments is cut (`PartnerName.EmptyPrefixCutsTheName`).
- A push along more than 64 hops is dropped by its first router, although the path search may
  return such a path; every shorter one arrives (`FederationDelivery.RelayDelivers`).
- After a direct child was decommissioned no access-control document can be compiled again,
  since the compilation still asks for the child's active delegation
  (`CurrentPolicy.NoPolicyEverAgain`).
- The textual descendant test on identities accepts two identities that differ only in
  trailing slashes (`Identity.DescendantTestExact` says exactly when it means a descendant),
  and a grant between two such routers is valid (`Grant.TrailingSlashGrantIsValid`).
- The first grant of a chain is compared with the anchor only on depth, issuer and signer, so
  attenuation is stated relative to the first grant (`TrustChain.ChainAttenuates`).
- A chain of more than 33 authorities cannot be exported (`TrustExport.ExportSucceeds`). The
  store accepts grants that lead there below every root with a depth above 32
  (`DeepLineage.DeepLineageIsReachable`), but no invitation makes them: it offers a depth of at
  most 8, and where all grants were invited a lineage has at most ten authorities and no
  export is refused for its length (`EnrollmentBundle.InvitedLineagesAreShort`). A missing
  policy signer and a certificate over 64 KiB are accepted by the store and refused by the
  verifier (`TrustExport.ExportedProofVerifies` lists every remaining condition).
- When saving the last known good configuration fails, `apply_acl` leaves the new user
  dictionary beside the old configuration, and when writing the dictionary fails it leaves
  whatever that write left (`ConfigApply.Router.ApplyAcl`).
- A used invitation is not always answered again: the link secret must still be stored and no
  authority of the lineage decommissioned (`EnrollmentBundle.RepeatIsAnswered`).
- While one community feed fails, an entry of the other is announced again at every poll,
  against the promise of one event for each new entry
  (`CommunityFeed.AnnouncedAgainExactly`, with a run in `CommunityFeed.AnnouncedTwice`).
- A reused pid can make a stopped target pass for a running one
  (`Reconcile.ReusedPidHidesTarget`). A pass of the reconciler keeps its promises if and only
  if no process that it starts gets a pid that another target's pid file names
  (`Reconcile.PassSettlesExactly`).

## Model

| member | source | states |
|---|---|---|
| KeyScope.ParseInvertsRender | compose/zenoh-admin/api/trust_types.py:32-45 | parsing and rejoining undo each other, and exactly the renderings of well-formed scopes of at most 1024 characters parse |
| KeyScope.ContainsIsInclusion | compose/zenoh-admin/api/trust_types.py:48-53 | the containment test holds if and only if every key of the child scope is a key of the parent scope |
| KeyScope.ScopeContainsDecides | compose/zenoh-admin/api/trust_types.py:48-53 | on expressions the test answers exactly when both parse, and its answer is inclusion of the keys |
| KeyScope.FreshSegment | compose/zenoh-admin/api/trust_types.py:68-69 | for at most 128 scopes there is a segment that none of them has at a given position |
| KeyScope.AllCoveredIsInclusion | compose/zenoh-admin/api/trust_types.py:173-175 | covering each requested scope by one allowed scope decides inclusion in the union of the allowed scopes |
| Identity.NormalizePath | compose/zenoh-admin/api/trust_identity.py:12-16 | the result is a normal path, and a normal path comes back unchanged |
| Identity.DescendantTestExact | compose/zenoh-admin/api/trust_types.py:128-129 | the textual test means a strict descendant if and only if the identities differ by more than trailing slashes |
| Identity.DescendantTestAcceptsTrailingSlashes | compose/zenoh-admin/api/trust_types.py:126-129 | a concrete pair that passes the test and is no descendant |
| Identity.DescendantTransitive | compose/zenoh-admin/api/trust_types.py:128-129 | the descendant test is transitive, so a chain's last identity is below its first |
| Identity.ChildNamespaceBelow | compose/zenoh-admin/api/trust_identity.py:24-31 | an accepted child name lies below its parent and names a router strictly below it exactly when it fits 512 characters |
| Identity.RouterIdentityInjective | compose/zenoh-admin/api/trust_identity.py:19-21 | two paths have one identity only when they normalise alike |
| Grant.SpiffeRouterExactly | compose/zenoh-admin/api/trust_types.py:14-81 | a router identity is accepted if and only if it is made of a bounded domain name and a bounded path |
| Grant.VerifyEnvelopeExact | compose/zenoh-admin/api/trust_crypto.py:90-125 | an envelope verifies if and only if it is genuine and the time is inside the windows of grant and signer |
| Grant.SubsetExactly | compose/zenoh-admin/api/trust_types.py:157-176 | the subset test holds if and only if the grant is by the subject of the wider one, strictly below its namespace, less deep, and narrower in roles, actions, keys and window |
| Grant.TrailingSlashGrantIsValid | compose/zenoh-admin/api/trust_types.py:123-132 | a grant between two routers that differ only in a trailing slash passes every check, although its subject is not below its issuer |
| TrustChain.VerifyTrustChain | compose/zenoh-admin/api/trust_store.py:173-281 | the loop over the steps computes the fold of the single-step check from the anchor, with the checks on anchor and length |
| TrustChain.VerifyStepExact | compose/zenoh-admin/api/trust_store.py:222-281 | one step is accepted if and only if it is sound, current and unrevoked, and then establishes its subject |
| TrustChain.AcceptedExactly | compose/zenoh-admin/api/trust_store.py:173-281 | a chain is accepted if and only if its anchor is the trusted one in every field, active, unrevoked, unexpired and with a policy signer, it has 1 to 32 steps, and each step is sound, current and unrevoked below the one before |
| TrustChain.FoldAttenuates | compose/zenoh-admin/api/trust_store.py:222-281 | from any granted issuer, n accepted steps end in an authority that is narrower, n segments and n levels further down |
| TrustChain.ChainAttenuates | compose/zenoh-admin/api/trust_store.py:173-281 | end-to-end attenuation: the last grant is inside the first, its identity below the anchor's, its namespace at least n-1 segments longer, its depth at most the anchor's minus n |
| TrustChain.EveryGrantIsSigned | compose/zenoh-admin/api/trust_store.py:236-247 | the grant of each step was signed by the policy key of the authority that the step before it established |
| TrustChain.EveryCertificateIsSigned | compose/zenoh-admin/api/trust_store.py:50-93 | the CA and the policy certificate of each step name the CA of the authority before it as issuer and carry the signature of its key, and have the profiles of a P-256 router CA and of a policy signer of the subject alone |
| TrustChain.PrefixAccepted | compose/zenoh-admin/api/trust_store.py:209-281 | every non-empty prefix of an accepted chain is accepted |
| TrustChain.AcceptanceIsConvex | compose/zenoh-admin/api/trust_store.py:209-281 | the accepting times form one interval, fewer revocations never reject, and the authority established is the same throughout |
| TrustStore.LatestActive | compose/zenoh-admin/api/trust_store.py:143-150 | the active delegation of a subject with the highest sequence, and None exactly when there is none |
| TrustStore.HighestSequence | compose/zenoh-admin/api/trust_store.py:324-328 | no sequence of the issuer is above the result, revoked or not |
| TrustStore.AcceptChecks | compose/zenoh-admin/api/trust_store.py:284-385 | what acceptance has checked, and the one authority row and one delegation row that it adds |
| TrustStore.AcceptExactly | compose/zenoh-admin/api/trust_store.py:284-385 | a delegation is accepted if and only if it is admissible and every window, the issuer's revocation state and the uniqueness of rows allow it |
| TrustStore.AcceptPreserves | compose/zenoh-admin/api/trust_store.py:284-385 | accepting a delegation keeps the store invariant |
| TrustStore.EnrollPreserves | compose/zenoh-admin/api/pki.py:500-552 | enrollment, with its credentials and identities, keeps the store invariant |
| TrustStore.CommissionedPreserves | compose/zenoh-admin/api/trust_api.py:116-145 | quarantine and restore keep the store invariant |
| TrustStore.DecommissionPreserves | compose/zenoh-admin/api/trust_api.py:148-175 | decommissioning keeps the store invariant, revocations included |
| TrustStore.InvariantOverRuns | compose/zenoh-admin/api/trust_api.py:116-175 | after every sequence of operations parents are known, depth drops along each edge, sequences of an issuer increase, each authority below the root has one delegation, active unless decommissioned |
| TrustStore.RowsAreSigned | compose/zenoh-admin/api/trust_store.py:321-360 | the same for every row below a root: its certificates name the CA of its parent's row as issuer, carry the signature of its key, and have their profiles |
| TrustStore.QuarantineExactly | compose/zenoh-admin/api/trust_api.py:116-129 | succeeds if and only if the child is known, direct and not decommissioned, and then sets its state to quarantined and changes nothing else; otherwise it says which condition failed |
| TrustStore.RestoreExactly | compose/zenoh-admin/api/trust_api.py:132-145 | succeeds if and only if the child is known, direct and quarantined, and then sets its state to active and changes nothing else |
| TrustStore.RestoreUndoesQuarantine | compose/zenoh-admin/api/trust_api.py:116-145 | quarantining and restoring an active child gives back the store |
| TrustStore.DecommissionExactly | compose/zenoh-admin/api/trust_api.py:148-175 | succeeds if and only if the child is known, direct and not decommissioned, and then revokes every row of it and no other, and adds one revocation of its identity with a sequence above all earlier ones |
| TrustStore.DecommissionRetiresForEver | compose/zenoh-admin/api/trust_api.py:148-175 | from the operation on, over every further run, all that the child held stays revoked and it issues nothing |
| TrustStore.DecommissionedForEver | compose/zenoh-admin/api/trust_api.py:148-175 | decommissioned is absorbing: delegation, identities and credentials stay revoked and it issues nothing more, over every further run |
| TrustExport.WalkReachesRoot | compose/zenoh-admin/api/trust_store.py:130-140 | walking up parents reaches a root within as many levels as the depths of the grants allow, so there are no cycles |
| TrustExport.DepthDropsAlongLineage | compose/zenoh-admin/api/trust_store.py:130-140 | depths fall strictly along a lineage |
| TrustExport.ExportSucceeds | compose/zenoh-admin/api/trust_store.py:128-170 | export succeeds if and only if the lineage has at most 33 authorities and none below the root is decommissioned |
| TrustExport.ExportedProofVerifies | compose/zenoh-admin/api/trust_store.py:128-281 | round trip: an exported proof is accepted against the local anchor exactly when anchor and steps are current, unrevoked and complete, and yields identity, namespace, fingerprint and depth of the authority exported |
| TrustExport.RoundTripInReachableStores | compose/zenoh-admin/api/trust_store.py:128-385 | the round trip in every store that a router reaches from its own root: acceptance exactly under the remaining conditions, with identity, namespace, fingerprint and depth of the authority exported |
| TrustExport.CutOffForEver | compose/zenoh-admin/api/trust_api.py:148-175 | nothing at or below a decommissioned authority can ever be exported again |
| TrustExport.DecommissionCutsOff | compose/zenoh-admin/api/trust_api.py:148-175 | from the operation on, over every further run, neither the child nor anything in its subtree is exported |
| DeepLineage.DeepLineageIsReachable | compose/zenoh-admin/api/trust_store.py:130-140 | for every root depth above 32 the store accepts 33 delegations, one below the other and deeper than invitations make them, after which the last authority is active and its chain is refused as too deep |
| TrustRegistry.Registry.Accept | compose/zenoh-admin/api/trust_store.py:284-385 | adds exactly the rows of the accepted delegation, or changes nothing and reports the error; the invariant holds |
| TrustRegistry.Registry.EnrollRouter | compose/zenoh-admin/api/pki.py:500-552 | acceptance together with the identities and the credential of the child |
| TrustRegistry.Registry.QuarantineAuthority | compose/zenoh-admin/api/trust_api.py:116-129 | sets the state of a direct child that is not decommissioned, and nothing else |
| TrustRegistry.Registry.RestoreAuthority | compose/zenoh-admin/api/trust_api.py:132-145 | only a quarantined direct child becomes active again |
| TrustRegistry.Registry.DecommissionAuthority | compose/zenoh-admin/api/trust_api.py:148-175 | revokes the delegations, identities and credentials of the child and adds a revocation with the next sequence |
| TrustRegistry.ClimbIsWalk | compose/zenoh-admin/api/trust_store.py:130-140 | appending parents on the way up and reversing at the top builds the lineage root first |
| TrustRegistry.Registry.ExportTrustChain | compose/zenoh-admin/api/trust_store.py:128-170 | the two loops compute the exported proof and leave the tables alone |
| Enrollment.ChildGrantNarrows | compose/zenoh-admin/api/pki.py:475-499 | the grant built for a child narrows its issuer's grant exactly when its depth is smaller and the two-minute margin stays inside the issuer's window, and is again of the standard form |
| Enrollment.ChildGrantIsValid | compose/zenoh-admin/api/pki.py:475-499 | that grant passes validation exactly when identities and the issuer's namespace are proper, depth and sequence in range and the window is not empty |
| Enrollment.EnrolledAsInvited | compose/zenoh-admin/api/pki.py:414-582 | a successful enrollment creates the invited child under this router, with exactly the grant, credentials and identities it should have, uses up that invitation and no other, and happens before it expires |
| Enrollment.EnrollsExactly | compose/zenoh-admin/api/pki.py:414-582 | an unused invitation that has not expired enrolls if and only if the router is equipped, the issuer may delegate with its current signer on record, the child is new with proper names and certificates, and the depth is below what the issuer holds |
| Enrollment.RefusedChangesNothing | compose/zenoh-admin/api/pki.py:414-441 | an unknown, used or expired invitation and any refused enrollment leave desk and store as they were, each with its own answer |
| Enrollment.UsedForEver | compose/zenoh-admin/api/pki.py:553-568 | a use never changes and stays backed by a delegation; no two invitations share an authority |
| Enrollment.EnrollmentDesk.CreateInvitation | compose/zenoh-admin/api/pki.py:353-395 | on success one unused invitation is stored for a name below this router, less deep than it, and expiring after the asked hours or with the issuer, where none was for that token; otherwise nothing changes |
| Enrollment.EnrollmentDesk.EnrollRouter | compose/zenoh-admin/api/pki.py:414-582 | the tables afterwards are those of the enrollment function, errors included, and the store invariant holds |
| EnrollmentBundle.ChildExport | compose/zenoh-admin/api/trust_store.py:128-170 | the chain exported for a newly enrolled child is its issuer's chain with the child's step behind it |
| EnrollmentBundle.BundleVerifies | compose/zenoh-admin/api/pki.py:282-307 | at the moment of enrollment the chain handed out verifies exactly when the issuer's chain is passable, the new certificates fit the size limit and nothing of the child or the anchor is revoked |
| EnrollmentBundle.AnsweredExactly | compose/zenoh-admin/api/pki.py:282-307 | a used invitation is answered with a chain if and only if the link secret is stored, the lineage has at most 33 authorities and none below the root is decommissioned |
| EnrollmentBundle.RepeatIsAnswered | compose/zenoh-admin/api/pki.py:428-435 | single use: over every further run the same keys are answered with the chain of that enrollment, exactly while the link secret is stored and the lineage can be exported; other keys are refused; nothing changes either way |
| EnrollmentBundle.InvitedLineagesAreShort | compose/zenoh-admin/api/pki.py:78-82 | where every grant was offered by an invitation, over every run of a desk no lineage has more than ten authorities and no export is refused for its length |
| TrustBootstrap.AcceptSteps | compose/zenoh-admin/api/pki.py:239-257 | the loop over the steps of a chain: the tables become those of accepting every unknown step in turn, or stay as they were with the first error |
| TrustBootstrap.BootstrapExactly | compose/zenoh-admin/api/pki.py:239-257 | a bootstrap succeeds if and only if no step is refused in its turn, and then it keeps all that was there and knows the subject of every step |
| TrustBootstrap.StepsAreAccepted | compose/zenoh-admin/api/pki.py:239-257 | from any store that knows an issuer as the verifier does, steps that verify and whose rows are unique are all accepted, and the store then knows the last subject as the verifier does |
| TrustBootstrap.ChainBootstraps | compose/zenoh-admin/api/pki.py:222-257 | a chain that verifies against an anchor is accepted step by step into a store holding only that anchor, given unique rows |
| AclPolicy.CompileAcl | compose/zenoh-admin/api/acl_policy.py:58-176 | the loop over sorted peers yields the document of all peers, or the first conflict met |
| AclPolicy.CompilesExactly | compose/zenoh-admin/api/acl_policy.py:67-104 | compilation succeeds if and only if the local settings are well formed, common names are distinct and child usernames are distinct, in whatever order the peers come |
| AclPolicy.OrderIndependent | compose/zenoh-admin/api/acl_policy.py:97 | peers with distinct identities give the same document in every order |
| AclMeaning.DocumentMeaning | compose/zenoh-admin/api/acl_policy.py:58-170 | for every link but plain TCP, a message passes if and only if an active peer that the link identifies is entitled to it |
| AclMeaning.CompiledMeaning | compose/zenoh-admin/api/acl_policy.py:58-176 | the same for whatever the compiler accepts, in terms of the peers it was given |
| AclMeaning.EntitlementIsRules | compose/zenoh-admin/api/acl_policy.py:126-163 | the rules of an active peer allow exactly what its scopes and the control topics entitle it to |
| AclMeaning.LocalMeaning | compose/zenoh-admin/api/acl_policy.py:72-93 | a plain TCP link without a certificate gets all there is with the router's own data, inbound data to read and inject, introspection and the control topics, and nothing else |
| AclMeaning.ReferencesResolve | compose/zenoh-admin/api/acl_policy.py:88-163 | every rule and subject that a policy names is declared |
| AclMeaning.NothingWithoutActivePeer | compose/zenoh-admin/api/acl_policy.py:119-123 | a link of a quarantined peer, or of nobody, is allowed nothing |
| AclMeaning.ScopeKeys | compose/zenoh-admin/api/trust_types.py:32-45 | the keys in a scope expression are those of the scope it parses to |
| AclMeaning.ChildWritesAreHome | compose/zenoh-admin/api/acl_policy.py:126-140 | what a child puts or deletes lies in its own namespace: its publish scopes and its two reporting topics, with its own username |
| AclMeaning.ChildReceivesExactly | compose/zenoh-admin/api/acl_policy.py:126-140 | what is put out to a child is exactly its subscribe scopes and its two configuration topics |
| AclMeaning.SiblingsNeverCollide | compose/zenoh-admin/api/acl_policy.py:126-140 | children with prefix-incomparable namespaces have no writable key in common |
| AclMeaning.ValidGrantKeepsContract | compose/zenoh-admin/api/trust_types.py:130-131 | peers made of valid grants publish only inside their namespace, and are valid peers exactly when their names are |
| AclMeaning.NarrowerGrantNarrowerKeys | compose/zenoh-admin/api/trust_types.py:173-175 | a narrower grant compiles to publish and subscribe rules that match only keys of the wider one's |
| AclMeaning.EntitledByGrant | compose/zenoh-admin/api/managed_acl.py:105-115 | a peer made of a grant is entitled to exactly what the grant says of its publish and subscribe scopes, its namespace and the control topics |
| CurrentPolicy.GatherChildren | compose/zenoh-admin/api/managed_acl.py:85-115 | the loop over the direct children, in any order, gives one peer for each, or an error exactly when some child cannot be compiled |
| CurrentPolicy.CompileCurrentPolicy | compose/zenoh-admin/api/managed_acl.py:74-148 | the compiler is reached if and only if every record is complete and one that a peer may have; and on a link that is not plain TCP the document lets through exactly what the grant in force of an active child, or of this router under an active parent, entitles to |
| CurrentPolicy.PolicyMeaning | compose/zenoh-admin/api/managed_acl.py:83-148 | the meaning of the compiled document, said of the store: links of children and of the parent, their states, and the grants in force |
| CurrentPolicy.ChildLinkMeaning | compose/zenoh-admin/api/managed_acl.py:114 | the link of a child is allowed nothing while the child is not active, and otherwise exactly what its grant in force entitles it to |
| CurrentPolicy.CompiledChildExactly | compose/zenoh-admin/api/managed_acl.py:89-115 | a child is compiled if and only if it is not decommissioned, has transport identity, credential and secret, its grant is current, and its names and expressions are ones that a peer may have |
| CurrentPolicy.CompiledParentExactly | compose/zenoh-admin/api/managed_acl.py:117-148 | the parent's peer is compiled if and only if its certificate and secret are there and this router's own grant is in force, current and proper |
| CurrentPolicy.EnrolledIsCompiled | compose/zenoh-admin/api/pki.py:500-552 | a child that was just enrolled can be compiled: enrollment leaves no record out |
| CurrentPolicy.NoPolicyEverAgain | compose/zenoh-admin/api/managed_acl.py:89-104 | once a direct child is decommissioned, in every later state of the store the records are incomplete and nothing can be compiled |
| FederationCrypto.CanonicalizeInjective | compose/zenoh-admin/api/federation_crypto.py:16-23 | equal signed bytes mean equal purpose and equal payload text |
| FederationCrypto.GrantsAreSeparate | compose/zenoh-admin/api/federation_crypto.py:16-23 | no federation signature covers the bytes of a delegation grant |
| FederationRelay.Relayer.HandleRelay | compose/zenoh-admin/api/federation_relay.py:62-132 | an envelope is passed on if and only if it is within the limits, signed for relaying by the trusted parent with a current certificate, complete, addressed to this router and bound for a registered child; the message put and the one audit record are spelled out |
| FederationRelay.RelayExactly | compose/zenoh-admin/api/federation_relay.py:62-132 | the same for the relay function, with what the next message carries and who signs it for which purpose |
| FederationDelivery.RelayDelivers | compose/zenoh-admin/api/federation_relay.py:75-124 | along linked routers every push that its origin accepts arrives if and only if its path has at most 64 hops: after one relay step less it is on the target's topic, text and version unchanged, signed by the target's parent; no envelope is ever too large |
| FederationDelivery.RelayPassesThrough | compose/zenoh-admin/api/federation_relay.py:75-124 | after k relay steps such a push is on the relay topic of the k-th router, if and only if the path has at most 64 hops or k is 0 |
| FederationRelay.EnvelopesAreSmall | compose/zenoh-admin/api/federation_relay.py:62-66 | no relay envelope of a push exceeds 512 KiB, for any text of at most 256 KiB that escaping lengthens by at most 240,000 and any path of at most 64 topology names |
| ConfigRender.RenderedCost | compose/zenoh-admin/api/config.py:418-478 | escaping lengthens a rendered text by no more than its template, with 50 for each dollar sign, whatever validated fields are substituted |
| ConfigRender.RenderedExactly | compose/zenoh-admin/api/config.py:418-478 | rendering writes the value of its key for each placeholder of the template and leaves all else as it is, although the keys are substituted one after the other |
| FederationPaths.PathTo | compose/zenoh-admin/api/federation_paths.py:11-38 | for any parent map, cyclic or not, a path is returned exactly when the walk up from the target reaches this router, and is that walk reversed with distinct nodes |
| FederationPaths.SearchIsExact | compose/zenoh-admin/api/federation_paths.py:20-38 | the bound on the search loses nothing |
| FederationPaths.PathIsTheDownPath | compose/zenoh-admin/api/federation_paths.py:11-38 | the answer is a path if and only if it is the path down from this router to the target, of which there is at most one |
| FederationPaths.UpWalkIsDistinct | compose/zenoh-admin/api/federation_paths.py:20-38 | a walk that reaches this router never visits a node twice |
| FederationPaths.DownPathEnds | compose/zenoh-admin/api/federation_paths.py:11-38 | a returned path ends at the target and begins with a child of this router |
| FederationPaths.PathIsKnown | compose/zenoh-admin/api/federation_paths.py:20-38 | every router on a returned path is in the topology |
| ConfigApply.Router.Apply | compose/zenoh-admin/api/config.py:643-769 | for every pattern of failures the configuration and both prefixes are all new with a healthy router, or all as before, with the exact status, snapshot and running router |
| ConfigApply.Router.ApplyAcl | compose/zenoh-admin/api/managed_acl.py:209-253 | configuration, user dictionary and running router are all new or all old, except for the two uncaught errors, for which it says what is left |
| ConfigApply.VerdictExactly | compose/zenoh-admin/api/config.py:660-769 | each of the five statuses is reported if and only if the environment behaves in one way |
| ConfigApply.CandidateReadsBack | compose/zenoh-admin/api/config.py:144-171 | prefixes that were written read back as the candidate's |
| PartnerName.ExtractPartner | compose/zenoh-admin/api/config.py:351-373 | the storage expression and the loop over rules give the partner name of the recursive reading |
| PartnerName.RulesInOrder | compose/zenoh-admin/api/config.py:360-373 | rules are read one after the other, up to and including the first inbound rule with keys, and none behind it matters |
| PartnerName.OneRule | compose/zenoh-admin/api/config.py:360-369 | one rule says something if and only if it is a first-party rule with keys, and then what its first key says |
| PartnerName.StorageNameExactly | compose/zenoh-admin/api/config.py:351-358 | a name is found in the storage expression if and only if that is the name behind the data prefix, or one segment where there is none, with a wildcard behind it |
| PartnerName.KeyNameExactly | compose/zenoh-admin/api/config.py:361-369 | a first-party key gives the rest behind the data prefix, or else its last segment, or nothing new when it is empty |
| PartnerName.PartnerReadsBack | compose/zenoh-admin/api/config.py:351-373 | a rendered name reads back if and only if the reader's prefix leads the data root and is the rendered one, or it does not lead it and the name is one segment |
| PartnerName.NameIsRead | compose/zenoh-admin/api/config.py:351-373 | what is read out of a rendered text: the data root behind the reader's prefix where that leads it, the last segment of the name otherwise |
| PartnerName.EmptyPrefixCutsTheName | compose/zenoh-admin/api/config.py:367-372 | where both prefixes are empty, `b` is read for `a/b` |
| PartnerName.NeverMisreadExactly | compose/zenoh-admin/api/config.py:351-373 | a router never takes a configuration for a possible sibling as its own if and only if a condition on its prefix, the rendered prefix, its name and its parent's name holds |
| RouterNames.EnrolledIsBelow | compose/zenoh-admin/api/trust_identity.py:24-31 | a child's name has no empty segments and lies below that of the router that enrolls it |
| RouterNames.RequestIsEnrollable | compose/zenoh-admin/api/pki.py:362-363 | whatever name is requested, one that gets through is the full name of such a child, without the organisation's prefix |
| FederationApply.Target.HandleConfigPush | compose/zenoh-admin/api/federation_apply.py:224-325 | a push is attempted if and only if the trusted parent with a current certificate signed it as a configuration, it is complete and newer than the last one recorded, and its fields pass; the version is recorded whenever the signed part is fresh; configuration, attempt and published status are exactly determined |
| FederationApply.AttemptedExactly | compose/zenoh-admin/api/federation_apply.py:233-305 | the same for the step function, in terms of signature, version, protected settings and endpoints |
| FederationApply.RisingPushesAreAttempted | compose/zenoh-admin/api/federation_apply.py:270-305 | of any run of properly signed pushes with rising versions exactly those are attempted whose fields pass against the configuration then in force |
| FederationApply.Target.Judge | compose/zenoh-admin/api/federation_apply.py:280-305 | a text is refused before activation exactly when its fields cannot be read or a protected setting changes |
| FederationApply.StepIsStaged | compose/zenoh-admin/api/federation_apply.py:96-124 | one push keeps the protected settings and leaves an endpoint in common with the set before |
| FederationApply.RunKeepsProtected | compose/zenoh-admin/api/federation_apply.py:96-124 | over any sequence of pushes the recorded version never falls, prefix, ports, TLS profile, name policy and identity never change, and endpoints never all disappear |
| FederationApply.AttemptsIncrease | compose/zenoh-admin/api/federation_apply.py:270-277 | versions that reach activation strictly increase |
| FederationApply.EndpointsAreStaged | compose/zenoh-admin/api/federation_apply.py:117-123 | configurations in force one push apart share an endpoint |
| FederationNetwork.RelaySafety | compose/zenoh-admin/api/federation.py:187-264 | in every run, when no push can be misread by a sibling, each activated configuration was pushed by an operator for exactly that router, with that text and version, and each hop was signed by a router that at that moment had the next one registered and trusted the one before |
| FederationNetwork.PathEndsAtTarget | compose/zenoh-admin/api/federation.py:203-218 | the path of an accepted push, direct or searched, ends at its target |
| FederationNetwork.AcceptedExactly | compose/zenoh-admin/api/federation.py:187-228 | a push is accepted if and only if its partner is its target, text and version are in range, and the target is a registered child or the topology has a path down to it that begins with one; that is then its path |
| FederationNetwork.SignsExactly | compose/zenoh-admin/api/federation.py:229-264 | what an accepted push signs and puts: text, version, purpose, topic and, for a relayed one, the path |
| FederationNetwork.StatementsAreTraced | compose/zenoh-admin/api/federation_relay.py:62-132 | every relay and configuration statement ever signed stems from a push, all of whose hops up to its signer were made one after the other |
| FederationNetwork.NextStatement | compose/zenoh-admin/api/federation_relay.py:106-124 | what a relay forwards is the next statement of the same push, for a registered child, on the word of the trusted parent |
| FederationNetwork.RelaysExactly | compose/zenoh-admin/api/federation_relay.py:62-124 | a router signs a relayed statement if and only if the envelope is one that somebody signed, by the parent it trusts, and the next hop is its registered child; and what it signs |
| FederationNetwork.ActivatesExactly | compose/zenoh-admin/api/federation_apply.py:224-305 | a delivered configuration is recorded if and only if the trusted parent's current certificate signed it, it is complete and newer than any recorded, and is activated if and only if it also names this router and no other check fails |
| FederationNetwork.ActivationsAreExplained | compose/zenoh-admin/api/federation_apply.py:224-305 | without any condition: every activation comes from a push whose hops were all made, the last by the parent trusted on arrival |
| FederationNetwork.MisreadIsActivated | compose/zenoh-admin/api/federation_apply.py:98-99 | a push that a sibling of its target reads as its own is activated there in the run that enrolls both at its origin and misdelivers it |
| FederationNetwork.SafetyExactly | compose/zenoh-admin/api/config.py:351-373 | every activation of every run of rendered pushes is authorised if and only if no rendered push can be misread by a sibling of its target, names being those that enrollment gives |
| FederationNetwork.SafeFleetsAreAuthorised | compose/zenoh-admin/api/config.py:351-373 | when no router of the federation reads its name out of what its siblings are sent with the prefixes in use, every activation is authorised |
| FederationNetwork.OnePrefixIsSafe | compose/zenoh-admin/api/config.py:351-373 | one non-empty data prefix for all routers and all pushes is safe, whatever the names |
| FederationNetwork.EachSafeIsFleetSafe | compose/zenoh-admin/api/config.py:351-373 | routers that are each safe from all siblings they might get make a safe federation |
| FederationNetwork.PrefixFreeExactly | compose/zenoh-admin/api/config.py:367-372 | where no router has a data prefix, a federation is safe if and only if no child of an unnamed root is the last segment of another, and so always under a named root |
| FederationNetwork.UnsafeFleetIsMisread | compose/zenoh-admin/api/config.py:351-373 | otherwise there are siblings such that every push to one of them with that prefix is misread by the other |
| FederationNetwork.SlotRootMisdelivers | compose/zenoh-admin/api/config.py:367-372 | a run in which the unnamed root of an organisation enrolls `b` and `a/b` and the configuration for `a/b` is activated by `b`, where data is published without a prefix |
| FederationNetwork.ActivatedAtMostOnce | compose/zenoh-admin/api/federation_apply.py:270-277 | each version reaches activation at most once per router, whatever is replayed or duplicated |
| AsterixFrames.SplitFrames | tools/asterix_probe.py:12-26 | succeeds exactly on non-empty concatenations of data blocks, returns that decomposition, and every frame passes validation for its category |
| AsterixFrames.FramingIsUnique | tools/asterix_probe.py:12-26 | a datagram is cut into blocks in at most one way |
| AsterixFrames.ValidateExactly | compose/bridges/vendors/asterix/asterix_bridge.py:53-66 | a frame is accepted if and only if it carries the expected category and its length field is its size; the first fault is named otherwise |
| AsterixFrames.ExtractSacSic | tools/asterix_probe.py:29-43 | the source identifier is found exactly when the field specification ends inside the frame, carries the first field and the two octets are there |
| AsterixFrames.BlockReadsBack | compose/bridges/vendors/asterix/asterix_bridge.py:53-66 | a block built around a source identifier passes validation and gives the identifier back |
| DuplicateFilter.RecentFrames.Seen | compose/bridges/vendors/asterix/asterix_bridge.py:69-102 | with non-decreasing time, the cache is the window of most recent distinct fingerprints of the whole history, in sighting order, and the answer is membership in it |
| DuplicateFilter.RememberedExactly | compose/bridges/vendors/asterix/asterix_bridge.py:69-102 | a fingerprint is remembered if and only if its last sighting is within the lifetime and fewer than the limit of other fingerprints were sighted since |
| DuplicateFilter.WindowAfter | compose/bridges/vendors/asterix/asterix_bridge.py:95-102 | one more sighting moves a known fingerprint to the end, or adds a new one and evicts the oldest when there is no room |
| AsterixRelay.CategoryReadsBack | compose/bridges/vendors/asterix/asterix_bridge.py:40-50 | the topic that a relay puts to is read as the same category, for exactly 0 to 255 |
| AsterixRelay.CategoryExactly | compose/bridges/vendors/asterix/asterix_bridge.py:40-50 | a topic names a category if and only if it is the fixed part and decimal digits of a value up to 255 |
| AsterixRelay.RouteExactly | compose/bridges/vendors/asterix/asterix_bridge.py:105-119 | a sample is routed if and only if its frame is a block of the category that its topic names, to the topic of that category under the local root |
| AsterixRelay.Relay.RelaySample | compose/bridges/vendors/asterix/asterix_bridge.py:105-125 | a bad sample changes nothing; a good one is sighted, and put exactly when it was not seen recently |
| AsterixRelay.NoReflection | compose/bridges/vendors/asterix/asterix_bridge.py:69-125 | a frame is put again to a topic only after its lifetime, or after at least the limit of fingerprints in between |
| SampleStream.StreamSamples | compose/bridges/vendors/aaronia/aartos_bridge.py:64-91 | the nested loops yield the samples of the chunk-by-chunk reading, which are those of the whole stream when no stretch is too long |
| SampleStream.Drain | compose/bridges/vendors/aaronia/aartos_bridge.py:81-87 | the inner loop splits off every terminated non-empty piece and keeps the rest |
| SampleStream.ChunksDoNotMatter | compose/bridges/vendors/aaronia/aartos_bridge.py:64-91 | for every way to cut the stream, the samples are the non-empty terminated pieces of the whole stream |
| SampleStream.NothingIsDroppedExactly | compose/bridges/vendors/aaronia/aartos_bridge.py:88-91 | the buffer is the unterminated rest of the stream after every chunk if and only if no such rest is longer than a sample may be |
| SampleStream.SamplesReadBack | compose/bridges/vendors/aaronia/aartos_bridge.py:64-91 | samples written with separators are read back, in any chunks, with nothing left over |
| ZoneMirror.ZonePublisher.Publish | compose/bridges/vendors/dangausakis/dangausakis_bridge.py:762-779 | one message for each zone that is due or gone and none for others; the subscriber's picture is what the ledger says |
| ZoneMirror.MirrorOverRun | compose/bridges/vendors/dangausakis/dangausakis_bridge.py:762-779 | when cycles are at most a gap apart and refresh plus gap does not exceed the stale time, the subscriber draws exactly the zones of the cycle in force at every moment |
| ZoneMirror.MirrorBoundExact | compose/bridges/vendors/dangausakis/dangausakis_bridge.py:762-779 | the picture is right over every paced run if and only if refresh plus gap does not exceed the stale time |
| ZoneMirror.LaterCyclesAreTooLate | compose/bridges/vendors/dangausakis/dangausakis_bridge.py:763-768 | beyond that bound an unchanged zone goes stale on the screen although it is current |
| ThreatSuppression.ThreatPublisher.Publish | compose/bridges/vendors/dangausakis/neptun.py:250-272 | after a poll each of its tracks is on display exactly when it is not suppressed, with its latest content, and every other entry is as it was; over the whole run a threat was withdrawn once for each time its suppression began, and between two withdrawals it was published |
| ThreatSuppression.ThreatPublisher.OnSample | compose/bridges/vendors/dangausakis/neptun.py:236-243 | an announcement suppresses its threat and the threat's trail until exactly the announced time, and leaves the suppression of every other as it was |
| CommunityFeed.CommunityPublisher.Publish | compose/bridges/vendors/dangausakis/dangausakis_bridge.py:597-630 | the subscriber draws exactly the entries that a feed carries, those of a failed feed as they were, with their content; the announced entries are those not seen by the last complete poll, which is what is remembered |
| CommunityFeed.AnnouncedWhenNew | compose/bridges/vendors/dangausakis/dangausakis_bridge.py:597-630 | when the poll before was complete exactly the new entries are announced, and none by the first poll |
| CommunityFeed.AnnouncedAgainExactly | compose/bridges/vendors/dangausakis/dangausakis_bridge.py:629-630 | an announced entry is announced again exactly when the poll before was not complete |
| CommunityFeed.AnnouncedTwice | compose/bridges/vendors/dangausakis/dangausakis_bridge.py:629-630 | a run in which one report is announced twice |
| Reconcile.Reconciler.Reconcile | compose/control/admin_control.py:1040-1080 | one pass settles every enabled target, stops every other process, and its lists are the targets of each outcome in manifest order, if and only if no process that it starts gets a pid that another target's file names |
| Reconcile.PassSettlesExactly | compose/control/admin_control.py:1040-1080 | the same for the pass as a function: one start with a pid that another target's file names is enough to leave some target that was to be started without a process of its own |
| Reconcile.Reconciler.Stop | compose/control/admin_control.py:989-997 | ends the process of one target and removes its files, and nothing else |
| Reconcile.Reconciler.Start | compose/control/admin_control.py:1000-1037 | succeeds exactly for a target that can be started, with its pid and hash files |
| Reconcile.PassConverges | compose/control/admin_control.py:1040-1080 | after a pass exactly the enabled targets run that can be started or ran as desired, each with the hash of its desired configuration on file |
| Reconcile.KeptExactly | compose/control/admin_control.py:980-987 | a running target is left alone if and only if neither its endpoint nor its settings nor its secret has changed |
| Reconcile.PassKeepsTrueHashes | compose/control/admin_control.py:1040-1080 | if hash files told the truth before a pass they do after it, and then each running target runs its desired configuration |
| Reconcile.ReportParts | compose/control/admin_control.py:1059-1080 | started, unchanged and blocked part the enabled targets |
| Reconcile.SecondPassIsIdle | compose/control/admin_control.py:1190-1230 | a second pass starts and stops nothing and blocks the same targets |
| Reconcile.StartedTrackedExactly | compose/control/admin_control.py:1034-1037 | a new process keeps targets apart if and only if no other target's pid file names its pid |
| Reconcile.ReusedPidHidesTarget | compose/control/admin_control.py:964-977 | a state in which a reused pid makes a stopped target count as unchanged |

## Left out

- Real cryptography, PEM and ASN.1 parsing, certificate issuance, and the size limits of the
  textual envelope fields; certificates are records with the fields that are checked.
- Databases, HTTP, Zenoh sessions, Docker and subprocess calls; what they read and write are
  fields and parameters.
- `ensure_local_authority` re-identifying an existing root, and rotating a link credential.
- The JSON5 text of a configuration: `FederationNetwork` takes how a text parses as a function,
  and a rendered text is one that parses to the template for the fields of its push.
- FederationDelivery.RelayDelivers: takes a template whose cost, the bytes that escaping adds
  and 50 for each dollar sign, is at most 240,000; that of `examples/zenoh-router.json5.tmpl`
  is 2,475. Time stamps have at most 32 characters and versions fit a signed 64-bit integer.
- FederationNetwork.SafetyExactly: the routers of a federation share one organisation prefix,
  and the limits on the length of names are those of enrollment.
- ConfigApply.Router.Apply: the restoring writes themselves succeed, and prefix files are tidy
  enough that writing back what was read does not change it.
- Lost or deleted last-seen-version files, and failing writes of them.
- TrustBootstrap.ChainBootstraps: the anchor's own certificates are taken as proper, and chains
  in the older form without a list of steps are not modelled.
- Enrollment.ChildGrantNarrows: takes as given that the issuer's row expires no later than its
  grant, which acceptance sets.
- AclMeaning.DocumentMeaning: peers have distinct grant identifiers, which the store guarantees
  (`CurrentPolicy.PolicyMeaning`), and the 20-digit digest of one is taken to be free of
  collisions.
- Key expressions with wildcards in requests; requests name concrete keys.
- DuplicateFilter.RecentFrames.Seen: sequential calls with non-decreasing time; a clock that is
  read before the lock is taken is not modelled.
- AsterixRelay.CategoryReadsBack: digits are the ten ASCII digits.
- ZoneMirror.ZonePublisher.Publish: one clock reading per cycle; the subscriber tells zones
  apart by identifier, whatever topic they came on.
- Reconcile.Reconciler.Stop: SIGTERM ends the process at once. Ingress and egress targets share
  one model, with `endpoint` for the URL or the port.
- Alert texts, geometry, track fields, the watchdog and source caches, login, tickets, the
  supervisor and the user interface: short or without state that a theorem would add to.
