/** The persistent trust state: accepting delegations, exporting proofs, and the
    quarantine, restore and decommission controls. Authorities are keyed by identity,
    which is unique in the table and never changes here. */
module TrustStore {
  import opened Results
  import opened Identity
  import opened Grant
  import opened TrustChain

  datatype RowState = ActiveRow | RevokedRow

  datatype Delegation = Delegation(envelope: Envelope, issuer: Uri, subject: Uri, sequence: int, state: RowState)

  datatype Profile = Transport | PolicySigner

  datatype IssuedIdentity = IssuedIdentity(authority: Uri, profile: Profile, state: RowState)

  datatype LinkCredential = LinkCredential(authority: Uri, state: RowState)

  datatype Revocation = Revocation(target: Reference, sequence: int)

  datatype Store = Store(
    authorities: map<Uri, Authority>,
    delegations: seq<Delegation>,
    identities: seq<IssuedIdentity>,
    credentials: seq<LinkCredential>,
    revocations: seq<Revocation>)

  // ----- queries -----

  /** The active delegation of a subject with the highest sequence. */
  function LatestActive(rows: seq<Delegation>, subject: Uri): (r: Option<Delegation>)
    ensures r.Some? ==> r.value in rows && r.value.subject == subject && r.value.state == ActiveRow
    ensures r.Some? ==> forall d | d in rows && d.subject == subject && d.state == ActiveRow :: d.sequence <= r.value.sequence
    ensures r.None? ==> forall d | d in rows && d.subject == subject :: d.state != ActiveRow
  {
    if rows == [] then None
    else
      var rest := LatestActive(rows[1..], subject);
      var head := rows[0];
      if head.subject == subject && head.state == ActiveRow && (rest.None? || rest.value.sequence <= head.sequence)
      then Some(head) else rest
  }

  /** The highest sequence an issuer has used, whatever became of the delegation. */
  function HighestSequence(rows: seq<Delegation>, issuer: Uri): (r: Option<int>)
    ensures r.Some? ==> forall d | d in rows && d.issuer == issuer :: d.sequence <= r.value
    ensures r.Some? ==> exists d | d in rows :: d.issuer == issuer && d.sequence == r.value
    ensures r.None? ==> forall d | d in rows :: d.issuer != issuer
  {
    if rows == [] then None
    else
      var rest := HighestSequence(rows[1..], issuer);
      if rows[0].issuer == issuer && (rest.None? || rest.value <= rows[0].sequence)
      then Some(rows[0].sequence) else rest
  }

  function RevokedReferences(rows: seq<Revocation>): (refs: set<Reference>)
    ensures forall x :: x in refs <==> exists i | 0 <= i < |rows| :: rows[i].target == x
  {
    if rows == [] then {}
    else
      var n := |rows| - 1;
      assert forall i | 0 <= i < n :: rows[..n][i] == rows[i];
      RevokedReferences(rows[..n]) + {rows[n].target}
  }

  /** `authority_is_revoked`. */
  predicate IsRevoked(s: Store, a: Authority) {
    CertificateRef(a.caFingerprint) in RevokedReferences(s.revocations)
    || IdentityRef(a.identity) in RevokedReferences(s.revocations)
  }

  function NextRevocation(rows: seq<Revocation>): (n: int)
    ensures n >= 1 && forall r | r in rows :: r.sequence < n
    ensures n == 1 || exists r | r in rows :: r.sequence + 1 == n
  {
    if rows == [] then 1
    else
      var rest := NextRevocation(rows[1..]);
      if rest <= rows[0].sequence then rows[0].sequence + 1 else rest
  }

  // ----- accepting a delegation -----

  function NewAuthority(g: Grant, ca: Pem, policy: Option<Pem>): Authority
    requires ca.Pem? && (policy.Some? ==> policy.value.Pem?)
  {
    Authority(g.subject, g.namespace, Sha256(ca.certificate), ca,
              if policy.Some? then Some(Sha256(policy.value.certificate)) else None, policy,
              Some(g.issuer), g.depth, Active, Min(g.notAfter, ca.certificate.notAfter))
  }

  function NewRow(e: Envelope): Delegation {
    Delegation(e, e.payload.issuer, e.payload.subject, e.payload.sequence, ActiveRow)
  }

  /** The uniqueness constraints of the two tables. */
  predicate Unique(s: Store, g: Grant, a: Authority) {
    && (forall id | id in s.authorities ::
          && s.authorities[id].caFingerprint != a.caFingerprint
          && (a.policyFingerprint.Some? ==> s.authorities[id].policyFingerprint != a.policyFingerprint))
    && (forall d | d in s.delegations :: d.envelope.payload.id != g.id)
  }

  /** `accept_delegation`: the store after persisting a strictly narrower child. */
  function AcceptDelegation(s: Store, e: Envelope, caPem: Pem, policyPem: Option<Pem>, now: Time): Result<Store, TrustError> {
    if e.signer.MalformedPem? then Err(InvalidEnvelope)
    else
      var signer := Sha256(e.signer.certificate);
      var g :- VerifyEnvelope(e, Some(signer), now);
      var _ :- Check(g.issuer in s.authorities && s.authorities[g.issuer].state == Active
                     && !IsRevoked(s, s.authorities[g.issuer]), UnknownIssuer);
      var issuer := s.authorities[g.issuer];
      var _ :- Check(issuer.policyFingerprint == Some(signer), UnexpectedSigner);
      var _ :- (match LatestActive(s.delegations, g.issuer)
                case Some(parent) =>
                  var wide :- VerifyEnvelope(parent.envelope, Some(parent.envelope.signerSha), now);
                  Check(GrantIsSubset(g, wide), WidensParent)
                case None => Check(g.depth < issuer.depth, DepthNotReduced));
      var highest := HighestSequence(s.delegations, g.issuer);
      var _ :- Check(highest.Some? ==> highest.value < g.sequence, StaleSequence);
      if caPem.MalformedPem? || issuer.caCert.MalformedPem? then Err(InvalidCertificate)
      else
        var ca, issuerCa := caPem.certificate, issuer.caCert.certificate;
        var _ :- VerifyIssuedBy(ca, issuerCa);
        var _ :- VerifyCaProfile(ca);
        var _ :- Check(ca.notBefore <= now < ca.notAfter, Expired);
        var _ :- Check(Sha256(ca) == g.subjectCa, CaMismatch);
        if policyPem.Some? && policyPem.value.MalformedPem? then Err(InvalidCertificate)
        else
          var _ :- CheckPolicy(policyPem, issuerCa, g.subject, now);
          var _ :- Check(g.subject !in s.authorities, AuthorityExists);
          var a := NewAuthority(g, caPem, policyPem);
          var _ :- Check(Unique(s, g, a), UniqueViolation);
          Ok(s.(authorities := s.authorities[g.subject := a],
                delegations := s.delegations + [NewRow(e)]))
  }

  function CheckPolicy(policy: Option<Pem>, issuerCa: Certificate, subject: Uri, now: Time): Result<(), TrustError>
    requires policy.Some? ==> policy.value.Pem?
  {
    if policy.None? then Ok(())
    else
      var cert := policy.value.certificate;
      var _ :- VerifyIssuedBy(cert, issuerCa);
      var _ :- VerifyPolicyProfile(cert, subject);
      Check(cert.notBefore <= now < cert.notAfter, Expired)
  }

  function IssueCredentials(s: Store, subject: Uri): Store {
    s.(identities := s.identities + [IssuedIdentity(subject, Transport, ActiveRow),
                                     IssuedIdentity(subject, PolicySigner, ActiveRow)],
       credentials := s.credentials + [LinkCredential(subject, ActiveRow)])
  }

  /** Enrollment: acceptance plus the credentials issued with it. */
  function Enroll(s: Store, e: Envelope, caPem: Pem, policyPem: Pem, now: Time): Result<Store, TrustError> {
    var t :- AcceptDelegation(s, e, caPem, Some(policyPem), now);
    Ok(IssueCredentials(t, e.payload.subject))
  }

  // ----- lifecycle controls -----

  datatype ControlError = NotFound | NotDirectChild | Irreversible | NotQuarantined | AlreadyDecommissioned

  function DirectChild(s: Store, local: Uri, id: Uri): Result<Authority, ControlError> {
    var _ :- Check(id in s.authorities, NotFound);
    var _ :- Check(s.authorities[id].parent == Some(local), NotDirectChild);
    Ok(s.authorities[id])
  }

  function WithState(authorities: map<Uri, Authority>, id: Uri, state: AuthorityState): map<Uri, Authority>
    requires id in authorities
  {
    authorities[id := authorities[id].(state := state)]
  }

  function Quarantine(s: Store, local: Uri, id: Uri): Result<Store, ControlError> {
    var a :- DirectChild(s, local, id);
    var _ :- Check(a.state != Decommissioned, Irreversible);
    Ok(s.(authorities := WithState(s.authorities, id, Quarantined)))
  }

  function Restore(s: Store, local: Uri, id: Uri): Result<Store, ControlError> {
    var a :- DirectChild(s, local, id);
    var _ :- Check(a.state == Quarantined, NotQuarantined);
    Ok(s.(authorities := WithState(s.authorities, id, Active)))
  }

  function RevokeDelegations(rows: seq<Delegation>, subject: Uri): seq<Delegation> {
    seq(|rows|, i requires 0 <= i < |rows| => if rows[i].subject == subject then rows[i].(state := RevokedRow) else rows[i])
  }

  function RevokeIdentities(rows: seq<IssuedIdentity>, authority: Uri): seq<IssuedIdentity> {
    seq(|rows|, i requires 0 <= i < |rows| => if rows[i].authority == authority then rows[i].(state := RevokedRow) else rows[i])
  }

  function RevokeCredentials(rows: seq<LinkCredential>, authority: Uri): seq<LinkCredential> {
    seq(|rows|, i requires 0 <= i < |rows| => if rows[i].authority == authority then rows[i].(state := RevokedRow) else rows[i])
  }

  function Decommission(s: Store, local: Uri, id: Uri): Result<Store, ControlError> {
    var a :- DirectChild(s, local, id);
    var _ :- Check(a.state != Decommissioned, AlreadyDecommissioned);
    Ok(Store(WithState(s.authorities, id, Decommissioned),
             RevokeDelegations(s.delegations, id),
             RevokeIdentities(s.identities, id),
             RevokeCredentials(s.credentials, id),
             s.revocations + [Revocation(IdentityRef(id), NextRevocation(s.revocations))]))
  }

  // ----- the invariant -----

  predicate AuthorityRow(id: Uri, a: Authority) {
    && a.identity == id
    && (a.policyCert.Some? <==> a.policyFingerprint.Some?)
    && (a.policyCert.Some? ==> a.policyCert.value.Pem? && a.policyFingerprint == Some(Sha256(a.policyCert.value.certificate)))
    && a.caCert.Pem? && a.caFingerprint == Sha256(a.caCert.certificate)
    && (a.parent.None? ==> a.policyCert.Some? && a.state == Active)
  }

  /** A delegation row agrees with the authority rows of its two ends. */
  predicate Edge(authorities: map<Uri, Authority>, d: Delegation) {
    && d.issuer in authorities && d.subject in authorities
    && var issuer, subject, g := authorities[d.issuer], authorities[d.subject], d.envelope.payload;
       && subject.parent == Some(d.issuer)
       && g.issuer == d.issuer && g.subject == d.subject && g.sequence == d.sequence
       && issuer.policyFingerprint.Some? && EnvelopeGenuine(d.envelope, issuer.policyFingerprint)
       && subject.namespace == g.namespace && subject.depth == g.depth
       && subject.caFingerprint == g.subjectCa
       && g.depth < issuer.depth
       && issuer.caCert.Pem? && subject.caCert.Pem?
       && SignedBy(subject.caCert.certificate, issuer.caCert.certificate)
       && RouterCaProfile(subject.caCert.certificate)
       && (subject.policyCert.Some? ==>
             && subject.policyCert.value.Pem?
             && SignedBy(subject.policyCert.value.certificate, issuer.caCert.certificate)
             && PolicySignerProfile(subject.policyCert.value.certificate, d.subject))
       && (d.state == RevokedRow <==> subject.state == Decommissioned)
  }

  predicate HasRow(rows: seq<Delegation>, subject: Uri) {
    exists i | 0 <= i < |rows| :: rows[i].subject == subject
  }

  predicate Related(d: Delegation, e: Delegation) {
    && d.subject != e.subject && d.envelope.payload.id != e.envelope.payload.id
    && (d.issuer == e.issuer ==> d.sequence < e.sequence)
    && (e.issuer == d.subject ==> GrantIsSubset(e.envelope.payload, d.envelope.payload))
    && d.issuer != e.subject
  }

  /** Rows are kept in the order of acceptance: one per subject, sequences of an issuer
      increasing, grant identifiers distinct, an issuer's own delegation before those it
      issues, each narrower. */
  predicate Ordered(rows: seq<Delegation>) {
    forall i, j | 0 <= i < j < |rows| :: Related(rows[i], rows[j])
  }

  predicate CredentialsFollow(s: Store) {
    && (forall i | 0 <= i < |s.identities| ::
          && s.identities[i].authority in s.authorities
          && (s.authorities[s.identities[i].authority].state == Decommissioned ==> s.identities[i].state == RevokedRow))
    && (forall i | 0 <= i < |s.credentials| ::
          && s.credentials[i].authority in s.authorities
          && (s.authorities[s.credentials[i].authority].state == Decommissioned ==> s.credentials[i].state == RevokedRow))
  }

  predicate IsDecommissioned(authorities: map<Uri, Authority>, id: Uri) {
    id in authorities && authorities[id].state == Decommissioned
  }

  ghost predicate RevocationsFollow(s: Store) {
    && (forall id | IsDecommissioned(s.authorities, id) :: IdentityRef(id) in RevokedReferences(s.revocations))
    && (forall r | r in RevokedReferences(s.revocations) :: r.IdentityRef? && IsDecommissioned(s.authorities, r.identity))
    && (forall i, j | 0 <= i < j < |s.revocations| :: s.revocations[i].sequence < s.revocations[j].sequence)
  }

  ghost predicate Invariant(s: Store) {
    && (forall id | id in s.authorities :: AuthorityRow(id, s.authorities[id]))
    && (forall i | 0 <= i < |s.delegations| :: Edge(s.authorities, s.delegations[i]))
    && (forall id | id in s.authorities && s.authorities[id].parent.Some? :: HasRow(s.delegations, id))
    && Ordered(s.delegations)
    && CredentialsFollow(s)
    && RevocationsFollow(s)
  }

  lemma TheActiveRow(rows: seq<Delegation>, i: nat)
    requires Ordered(rows) && i < |rows|
    ensures LatestActive(rows, rows[i].subject) == if rows[i].state == ActiveRow then Some(rows[i]) else None
  {}

  /** The row that delegates to an authority below the root. */
  lemma DelegatedRow(s: Store, id: Uri) returns (i: nat)
    requires Invariant(s) && id in s.authorities && s.authorities[id].parent.Some?
    ensures i < |s.delegations| && s.delegations[i].subject == id && Edge(s.authorities, s.delegations[i])
    ensures LatestActive(s.delegations, id) == if s.delegations[i].state == ActiveRow then Some(s.delegations[i]) else None
  {
    hide Edge, AuthorityRow, CredentialsFollow, RevocationsFollow, LatestActive, Ordered;
    assert HasRow(s.delegations, id);
    i :| 0 <= i < |s.delegations| && s.delegations[i].subject == id;
    TheActiveRow(s.delegations, i);
  }

  lemma RowIsEdge(s: Store, d: Delegation)
    requires Invariant(s) && d in s.delegations
    ensures Edge(s.authorities, d)
  {
    hide Edge, AuthorityRow, CredentialsFollow, RevocationsFollow, Ordered, HasRow;
    var i :| 0 <= i < |s.delegations| && s.delegations[i] == d;
  }

  /** What the grant behind an edge keeps to. */
  lemma EdgeBounds(authorities: map<Uri, Authority>, d: Delegation)
    requires Edge(authorities, d)
    ensures 0 <= d.sequence && authorities[d.subject].parent == Some(d.issuer)
    ensures 0 <= authorities[d.subject].depth <= 32 && authorities[d.subject].depth < authorities[d.issuer].depth
    ensures DescendantTest(d.issuer, d.subject)
    ensures EnvelopeGenuine(d.envelope, None)
    ensures d.state == RevokedRow <==> IsDecommissioned(authorities, d.subject)
  {
    hide SpiffeRouter, ValidScopes, DescendantTest, SignedBy, RouterCaProfile, PolicySignerProfile, HasIdentity;
  }

  /** Every authority below a root holds a CA certificate, and a policy signer if any, that name
      the CA of its parent as issuer and carry the signature of its key. */
  lemma RowsAreSigned(s: Store, id: Uri)
    requires Invariant(s) && id in s.authorities && s.authorities[id].parent.Some?
    ensures s.authorities[id].parent.value in s.authorities
    ensures var a, parent := s.authorities[id], s.authorities[s.authorities[id].parent.value];
            && a.caCert.Pem? && parent.caCert.Pem? && a.caFingerprint == Sha256(a.caCert.certificate)
            && var ca, above := a.caCert.certificate, parent.caCert.certificate;
               && ca.issuerName == above.subjectName && ca.signedBy == above.publicKey
               && ca.publicKey.P256? && ca.constraints.Some? && ca.constraints.value.ca && ca.constraints.value.pathLength.Some?
               && ca.usage.Some? && ca.usage.value.keyCertSign
               && (a.policyCert.Some? ==>
                     && a.policyCert.value.Pem?
                     && var policy := a.policyCert.value.certificate;
                        && a.policyFingerprint == Some(Sha256(policy))
                        && policy.issuerName == above.subjectName && policy.signedBy == above.publicKey
                        && policy.publicKey.P256? && policy.constraints.Some? && !policy.constraints.value.ca
                        && policy.usage.Some? && policy.usage.value.digitalSignature
                        && policy.policySignerEku == Some(true) && policy.uriSans == [id])
  {
    var i := DelegatedRow(s, id);
    assert AuthorityRow(id, s.authorities[id]);
    hide Invariant, LatestActive, EnvelopeGenuine;
  }

  /** What the checks of `accept_delegation` establish, clock aside. */
  predicate Admissible(s: Store, e: Envelope, ca: Pem, policy: Option<Pem>) {
    && e.signer.Pem? && ca.Pem? && (policy.Some? ==> policy.value.Pem?)
    && var g := e.payload;
       && g.issuer in s.authorities && g.subject !in s.authorities
       && var issuer := s.authorities[g.issuer];
          && issuer.state == Active && issuer.caCert.Pem?
          && issuer.policyFingerprint.Some? && EnvelopeGenuine(e, issuer.policyFingerprint)
          && (match LatestActive(s.delegations, g.issuer)
              case Some(parent) => GrantIsSubset(g, parent.envelope.payload)
              case None => g.depth < issuer.depth)
          && (forall d | d in s.delegations && d.issuer == g.issuer :: d.sequence < g.sequence)
          && SignedBy(ca.certificate, issuer.caCert.certificate)
          && RouterCaProfile(ca.certificate)
          && Sha256(ca.certificate) == g.subjectCa
          && (policy.Some? ==>
                && SignedBy(policy.value.certificate, issuer.caCert.certificate)
                && PolicySignerProfile(policy.value.certificate, g.subject))
  }

  lemma AcceptChecks(s: Store, e: Envelope, ca: Pem, policy: Option<Pem>, now: Time)
    requires AcceptDelegation(s, e, ca, policy, now).Ok?
    ensures Admissible(s, e, ca, policy)
    ensures forall d | d in s.delegations :: d.envelope.payload.id != e.payload.id
    ensures AcceptDelegation(s, e, ca, policy, now).value
            == s.(authorities := s.authorities[e.payload.subject := NewAuthority(e.payload, ca, policy)],
                  delegations := s.delegations + [NewRow(e)])
    ensures var t, g := AcceptDelegation(s, e, ca, policy, now).value, e.payload;
            && t.authorities.Keys == s.authorities.Keys + {g.subject}
            && (forall id | id in s.authorities :: t.authorities[id] == s.authorities[id])
            && (var a := t.authorities[g.subject];
                && a.identity == g.subject && a.namespace == g.namespace && a.parent == Some(g.issuer)
                && a.depth == g.depth && a.state == Active && a.caCert == ca && a.caFingerprint == g.subjectCa
                && a.policyCert == policy && (policy.Some? ==> a.policyFingerprint == Some(Sha256(policy.value.certificate)))
                && a.notAfter <= g.notAfter && a.notAfter <= ca.certificate.notAfter
                && (a.notAfter == g.notAfter || a.notAfter == ca.certificate.notAfter))
            && t.delegations == s.delegations + [Delegation(e, g.issuer, g.subject, g.sequence, ActiveRow)]
            && t.identities == s.identities && t.credentials == s.credentials && t.revocations == s.revocations
  {
    hide ValidGrant, GrantIsSubset, VerifyCaProfile, VerifyIssuedBy, VerifyPolicyProfile, RouterCaProfile, SignedBy, PolicySignerProfile, IsRevoked;
    VerifyEnvelopeExact(e, Some(Sha256(e.signer.certificate)), now);
    var parent := LatestActive(s.delegations, e.payload.issuer);
    if parent.Some? {
      var p := parent.value.envelope;
      VerifyEnvelopeExact(p, Some(p.signerSha), now);
    }
  }

  /** The rest of the checks: revocation, the tables' uniqueness, and every window. */
  predicate Timely(s: Store, e: Envelope, ca: Pem, policy: Option<Pem>, now: Time)
    requires Admissible(s, e, ca, policy)
  {
    && EnvelopeCurrent(e, now)
    && (forall i | 0 <= i < |s.revocations| ::
          && s.revocations[i].target != IdentityRef(s.authorities[e.payload.issuer].identity)
          && s.revocations[i].target != CertificateRef(s.authorities[e.payload.issuer].caFingerprint))
    && (match LatestActive(s.delegations, e.payload.issuer)
        case Some(parent) => parent.envelope.signer.Pem? && EnvelopeCurrent(parent.envelope, now)
        case None => true)
    && ca.certificate.notBefore <= now < ca.certificate.notAfter
    && (policy.Some? ==> policy.value.certificate.notBefore <= now < policy.value.certificate.notAfter)
    && (forall id | id in s.authorities ::
          && s.authorities[id].caFingerprint != Sha256(ca.certificate)
          && (policy.Some? ==> s.authorities[id].policyFingerprint != Some(Sha256(policy.value.certificate))))
    && (forall d | d in s.delegations :: d.envelope.payload.id != e.payload.id)
  }

  /** In a store that keeps the invariant, exactly the admissible and timely delegations are
      accepted. */
  lemma AcceptExactly(s: Store, e: Envelope, ca: Pem, policy: Option<Pem>, now: Time)
    requires Invariant(s)
    ensures AcceptDelegation(s, e, ca, policy, now).Ok? <==> Admissible(s, e, ca, policy) && Timely(s, e, ca, policy, now)
  {
    hide ValidGrant, GrantIsSubset, VerifyCaProfile, VerifyIssuedBy, VerifyPolicyProfile, RouterCaProfile, SignedBy, PolicySignerProfile, Invariant;
    if e.signer.Pem? {
      VerifyEnvelopeExact(e, Some(Sha256(e.signer.certificate)), now);
    }
    var parent := LatestActive(s.delegations, e.payload.issuer);
    if parent.Some? {
      var p := parent.value.envelope;
      RowIsGenuine(s, parent.value);
      VerifyEnvelopeExact(p, Some(p.signerSha), now);
    }
  }

  lemma RowIsGenuine(s: Store, d: Delegation)
    requires Invariant(s) && d in s.delegations
    ensures EnvelopeGenuine(d.envelope, Some(d.envelope.signerSha))
  {
    var i :| 0 <= i < |s.delegations| && s.delegations[i] == d;
    assert Edge(s.authorities, s.delegations[i]);
  }

  lemma AdmissibleIsRelated(s: Store, e: Envelope, ca: Pem, policy: Option<Pem>, i: nat)
    requires Invariant(s) && Admissible(s, e, ca, policy) && i < |s.delegations|
    requires forall d | d in s.delegations :: d.envelope.payload.id != e.payload.id
    ensures Related(s.delegations[i], NewRow(e))
  {
    var row := s.delegations[i];
    assert Edge(s.authorities, row);
    assert row in s.delegations;
    if row.subject == e.payload.issuer {
      TheActiveRow(s.delegations, i);
    }
  }

  lemma AdmissibleReducesDepth(s: Store, e: Envelope, ca: Pem, policy: Option<Pem>)
    requires Invariant(s) && Admissible(s, e, ca, policy)
    ensures e.payload.depth < s.authorities[e.payload.issuer].depth
  {
    var parent := LatestActive(s.delegations, e.payload.issuer);
    if parent.Some? {
      var i :| 0 <= i < |s.delegations| && s.delegations[i] == parent.value;
      assert Edge(s.authorities, s.delegations[i]);
    }
  }

  lemma AdmissibleIsEdge(s: Store, e: Envelope, ca: Pem, policy: Option<Pem>)
    requires Invariant(s) && Admissible(s, e, ca, policy)
    requires e.payload.depth < s.authorities[e.payload.issuer].depth
    ensures AuthorityRow(e.payload.subject, NewAuthority(e.payload, ca, policy))
    ensures Edge(s.authorities[e.payload.subject := NewAuthority(e.payload, ca, policy)], NewRow(e))
  {
    var g, a := e.payload, NewAuthority(e.payload, ca, policy);
    var issuer := s.authorities[g.issuer];
    var after := s.authorities[g.subject := a];
    assert after[g.issuer] == issuer && after[g.subject] == a;
    assert AuthorityRow(g.issuer, issuer);
  }

  /** An edge reads only the two authorities it joins. */
  lemma EdgeSurvives(before: map<Uri, Authority>, after: map<Uri, Authority>, d: Delegation)
    requires Edge(before, d)
    requires d.issuer in after && d.subject in after
    requires after[d.issuer] == before[d.issuer] && after[d.subject] == before[d.subject]
    ensures Edge(after, d)
  {}

  lemma EdgesSurvive(s: Store, d: Delegation, a: Authority)
    requires forall i | 0 <= i < |s.delegations| :: Edge(s.authorities, s.delegations[i])
    requires d.subject !in s.authorities && Edge(s.authorities[d.subject := a], d)
    ensures var rows := s.delegations + [d];
            forall i | 0 <= i < |rows| :: Edge(s.authorities[d.subject := a], rows[i])
  {
    var rows := s.delegations + [d];
    forall i | 0 <= i < |rows|
      ensures Edge(s.authorities[d.subject := a], rows[i])
    {
      if i < |s.delegations| {
        EdgeSurvives(s.authorities, s.authorities[d.subject := a], s.delegations[i]);
      }
    }
  }

  lemma RowsSurvive(s: Store, d: Delegation, a: Authority)
    requires Invariant(s) && d.subject !in s.authorities
    ensures var after := s.authorities[d.subject := a];
            forall id | id in after && after[id].parent.Some? :: HasRow(s.delegations + [d], id)
  {
    hide Edge, Ordered, AuthorityRow, CredentialsFollow, RevocationsFollow;
    var after := s.authorities[d.subject := a];
    var rows := s.delegations + [d];
    forall id | id in after && after[id].parent.Some?
      ensures HasRow(rows, id)
    {
      if id == d.subject {
        assert rows[|s.delegations|].subject == id;
      } else {
        var i :| 0 <= i < |s.delegations| && s.delegations[i].subject == id;
        assert rows[i].subject == id;
      }
    }
  }

  lemma OrderedAppend(rows: seq<Delegation>, d: Delegation)
    requires Ordered(rows) && forall i | 0 <= i < |rows| :: Related(rows[i], d)
    ensures Ordered(rows + [d])
  {}

  lemma NewcomerHasNoPast(s: Store, t: Store, id: Uri)
    requires CredentialsFollow(s) && RevocationsFollow(s) && id !in s.authorities
    requires t.authorities.Keys == s.authorities.Keys + {id} && t.authorities[id].state == Active
    requires forall x | x in s.authorities :: t.authorities[x] == s.authorities[x]
    requires t.identities == s.identities && t.credentials == s.credentials && t.revocations == s.revocations
    ensures CredentialsFollow(t) && RevocationsFollow(t)
  {}

  lemma AppendPreserves(s: Store, d: Delegation, a: Authority)
    requires Invariant(s) && d.subject !in s.authorities
    requires AuthorityRow(d.subject, a) && a.state == Active
    requires Edge(s.authorities[d.subject := a], d)
    requires forall i | 0 <= i < |s.delegations| :: Related(s.delegations[i], d)
    ensures Invariant(s.(authorities := s.authorities[d.subject := a], delegations := s.delegations + [d]))
  {
    hide Related, AuthorityRow, HasRow, Edge, Ordered, CredentialsFollow, RevocationsFollow;
    var t := s.(authorities := s.authorities[d.subject := a], delegations := s.delegations + [d]);
    EdgesSurvive(s, d, a);
    RowsSurvive(s, d, a);
    OrderedAppend(s.delegations, d);
    NewcomerHasNoPast(s, t, d.subject);
  }

  lemma AcceptPreserves(s: Store, e: Envelope, ca: Pem, policy: Option<Pem>, now: Time)
    requires Invariant(s) && AcceptDelegation(s, e, ca, policy, now).Ok?
    ensures Invariant(AcceptDelegation(s, e, ca, policy, now).value)
  {
    AcceptChecks(s, e, ca, policy, now);
    AdmissibleReducesDepth(s, e, ca, policy);
    AdmissibleIsEdge(s, e, ca, policy);
    forall i | 0 <= i < |s.delegations|
      ensures Related(s.delegations[i], NewRow(e))
    {
      AdmissibleIsRelated(s, e, ca, policy, i);
    }
    AppendPreserves(s, NewRow(e), NewAuthority(e.payload, ca, policy));
  }

  lemma IssuePreserves(s: Store, subject: Uri)
    requires Invariant(s) && subject in s.authorities && s.authorities[subject].state == Active
    ensures Invariant(IssueCredentials(s, subject))
  {
    hide Edge, Ordered, HasRow, AuthorityRow;
    assert CredentialsFollow(IssueCredentials(s, subject));
  }

  lemma EnrollUnfolds(s: Store, e: Envelope, ca: Pem, policy: Pem, now: Time)
    requires Enroll(s, e, ca, policy, now).Ok?
    ensures AcceptDelegation(s, e, ca, Some(policy), now).Ok?
    ensures Enroll(s, e, ca, policy, now).value
            == IssueCredentials(AcceptDelegation(s, e, ca, Some(policy), now).value, e.payload.subject)
  {}

  lemma EnrollPreserves(s: Store, e: Envelope, ca: Pem, policy: Pem, now: Time)
    requires Invariant(s) && Enroll(s, e, ca, policy, now).Ok?
    ensures Invariant(Enroll(s, e, ca, policy, now).value)
  {
    AcceptPreserves(s, e, ca, Some(policy), now);
    AcceptChecks(s, e, ca, Some(policy), now);
    IssuePreserves(AcceptDelegation(s, e, ca, Some(policy), now).value, e.payload.subject);
  }

  /** The state that a subject's rows are given when it gets a new state. */
  predicate RowsTrack(before: seq<Delegation>, after: seq<Delegation>, id: Uri, state: AuthorityState) {
    && |after| == |before|
    && forall i | 0 <= i < |after| ::
         after[i] == before[i].(state :=
           if before[i].subject != id then before[i].state
           else if state == Decommissioned then RevokedRow else ActiveRow)
  }

  lemma EdgesTrack(authorities: map<Uri, Authority>, before: seq<Delegation>, after: seq<Delegation>, id: Uri, state: AuthorityState)
    requires id in authorities && RowsTrack(before, after, id, state)
    requires forall i | 0 <= i < |before| :: Edge(authorities, before[i])
    ensures forall i | 0 <= i < |after| :: Edge(WithState(authorities, id, state), after[i])
  {}

  lemma RowsStay(before: seq<Delegation>, after: seq<Delegation>, id: Uri, state: AuthorityState, subject: Uri)
    requires RowsTrack(before, after, id, state) && HasRow(before, subject)
    ensures HasRow(after, subject)
  {}

  lemma OrderTracks(before: seq<Delegation>, after: seq<Delegation>, id: Uri, state: AuthorityState)
    requires RowsTrack(before, after, id, state) && Ordered(before)
    ensures Ordered(after)
  {}

  /** Giving a non-root authority a new state, its rows following. */
  lemma StatePreserves(s: Store, t: Store, id: Uri, state: AuthorityState)
    requires Invariant(s) && id in s.authorities && s.authorities[id].parent.Some?
    requires t.authorities == WithState(s.authorities, id, state)
    requires RowsTrack(s.delegations, t.delegations, id, state)
    requires CredentialsFollow(t) && RevocationsFollow(t)
    ensures Invariant(t)
  {
    hide Edge, Ordered, HasRow, CredentialsFollow, RevocationsFollow, RowsTrack;
    EdgesTrack(s.authorities, s.delegations, t.delegations, id, state);
    OrderTracks(s.delegations, t.delegations, id, state);
    forall x | x in t.authorities && t.authorities[x].parent.Some?
      ensures HasRow(t.delegations, x)
    {
      RowsStay(s.delegations, t.delegations, id, state, x);
    }
    assert forall x | x in t.authorities :: AuthorityRow(x, s.authorities[x]);
  }

  lemma CommissionedPreserves(s: Store, id: Uri, state: AuthorityState)
    requires Invariant(s) && id in s.authorities && s.authorities[id].parent.Some?
    requires s.authorities[id].state != Decommissioned && state != Decommissioned
    ensures Invariant(s.(authorities := WithState(s.authorities, id, state)))
  {
    hide AuthorityRow, Ordered, HasRow;
    var t := s.(authorities := WithState(s.authorities, id, state));
    forall i | 0 <= i < |s.delegations| && s.delegations[i].subject == id
      ensures s.delegations[i].state == ActiveRow
    {
      assert Edge(s.authorities, s.delegations[i]);
    }
    assert CredentialsFollow(t);
    assert RevocationsFollow(t);
    StatePreserves(s, t, id, state);
  }

  lemma RevocationAppend(s: Store, t: Store, id: Uri)
    requires RevocationsFollow(s) && id in s.authorities
    requires t.authorities == WithState(s.authorities, id, Decommissioned)
    requires t.revocations == s.revocations + [Revocation(IdentityRef(id), NextRevocation(s.revocations))]
    ensures RevocationsFollow(t)
  {
    assert t.revocations[..|s.revocations|] == s.revocations;
    forall x | IsDecommissioned(t.authorities, x)
      ensures IdentityRef(x) in RevokedReferences(t.revocations)
    {
      assert x == id || IsDecommissioned(s.authorities, x);
    }
    forall r | r in RevokedReferences(t.revocations)
      ensures r.IdentityRef? && IsDecommissioned(t.authorities, r.identity)
    {
      assert r == IdentityRef(id) || r in RevokedReferences(s.revocations);
    }
    forall i, j | 0 <= i < j < |t.revocations|
      ensures t.revocations[i].sequence < t.revocations[j].sequence
    {
      assert s.revocations[i] in s.revocations;
    }
  }

  lemma CredentialsRevoked(s: Store, t: Store, id: Uri)
    requires CredentialsFollow(s) && id in s.authorities
    requires t.authorities == WithState(s.authorities, id, Decommissioned)
    requires t.identities == RevokeIdentities(s.identities, id)
    requires t.credentials == RevokeCredentials(s.credentials, id)
    ensures CredentialsFollow(t)
  {}

  lemma DecommissionPreserves(s: Store, local: Uri, id: Uri)
    requires Invariant(s) && Decommission(s, local, id).Ok?
    ensures Invariant(Decommission(s, local, id).value)
  {
    hide Edge, Ordered, HasRow, AuthorityRow, CredentialsFollow, RevocationsFollow;
    var t := Decommission(s, local, id).value;
    CredentialsRevoked(s, t, id);
    RevocationAppend(s, t, id);
    StatePreserves(s, t, id, Decommissioned);
  }

  lemma SubjectsAreKnown(s: Store)
    requires Invariant(s)
    ensures forall d | d in s.delegations :: d.subject in s.authorities
  {
    forall d | d in s.delegations
      ensures d.subject in s.authorities
    {
      var i :| 0 <= i < |s.delegations| && s.delegations[i] == d;
      assert Edge(s.authorities, s.delegations[i]);
    }
  }

  lemma LatestOfNewcomer(s: Store, d: Delegation)
    requires Invariant(s) && d.subject !in s.authorities && d.state == ActiveRow
    ensures LatestActive(s.delegations + [d], d.subject) == Some(d)
  {
    var rows := s.delegations + [d];
    SubjectsAreKnown(s);
    hide Invariant;
    var r := LatestActive(rows, d.subject);
    assert d in rows;
    assert r.value in s.delegations || r.value == d;
  }

  // ----- what the lifecycle controls do -----

  /** One authority has got a new state; all others are as they were. */
  predicate OnlyStateChanges(before: map<Uri, Authority>, after: map<Uri, Authority>, id: Uri, state: AuthorityState) {
    && id in before && after.Keys == before.Keys
    && after[id] == before[id].(state := state)
    && forall x | x in before && x != id :: after[x] == before[x]
  }

  /** Quarantine succeeds exactly for a direct child that is not decommissioned, and sets its
      state and nothing else. */
  lemma QuarantineExactly(s: Store, local: Uri, id: Uri)
    ensures Quarantine(s, local, id).Ok?
            <==> id in s.authorities && s.authorities[id].parent == Some(local) && s.authorities[id].state != Decommissioned
    ensures Quarantine(s, local, id).Ok? ==>
      var t := Quarantine(s, local, id).value;
      && OnlyStateChanges(s.authorities, t.authorities, id, Quarantined)
      && t.delegations == s.delegations && t.identities == s.identities
      && t.credentials == s.credentials && t.revocations == s.revocations
    ensures Quarantine(s, local, id).Err? ==>
      Quarantine(s, local, id).error == if id !in s.authorities then NotFound
                                        else if s.authorities[id].parent != Some(local) then NotDirectChild else Irreversible
  {}

  /** Restoring succeeds exactly for a quarantined direct child, and makes it active again. */
  lemma RestoreExactly(s: Store, local: Uri, id: Uri)
    ensures Restore(s, local, id).Ok?
            <==> id in s.authorities && s.authorities[id].parent == Some(local) && s.authorities[id].state == Quarantined
    ensures Restore(s, local, id).Ok? ==>
      var t := Restore(s, local, id).value;
      && OnlyStateChanges(s.authorities, t.authorities, id, Active)
      && t.delegations == s.delegations && t.identities == s.identities
      && t.credentials == s.credentials && t.revocations == s.revocations
    ensures Restore(s, local, id).Err? ==>
      Restore(s, local, id).error == if id !in s.authorities then NotFound
                                     else if s.authorities[id].parent != Some(local) then NotDirectChild else NotQuarantined
  {}

  /** Quarantining and restoring an active child gives back the store. */
  lemma RestoreUndoesQuarantine(s: Store, local: Uri, id: Uri)
    requires Quarantine(s, local, id).Ok? && s.authorities[id].state == Active
    ensures Restore(Quarantine(s, local, id).value, local, id) == Ok(s)
  {
    var t := Quarantine(s, local, id).value;
    assert Restore(t, local, id).value.authorities == s.authorities;
  }

  /** Every row of the authority is revoked, and no other row changes. */
  predicate RowsRevoked(s: Store, t: Store, id: Uri) {
    && |t.delegations| == |s.delegations| && |t.identities| == |s.identities| && |t.credentials| == |s.credentials|
    && (forall i | 0 <= i < |s.delegations| ::
          t.delegations[i] == if s.delegations[i].subject == id then s.delegations[i].(state := RevokedRow) else s.delegations[i])
    && (forall i | 0 <= i < |s.identities| ::
          t.identities[i] == if s.identities[i].authority == id then s.identities[i].(state := RevokedRow) else s.identities[i])
    && (forall i | 0 <= i < |s.credentials| ::
          t.credentials[i] == if s.credentials[i].authority == id then s.credentials[i].(state := RevokedRow) else s.credentials[i])
  }

  /** Decommissioning succeeds exactly for a direct child that was not decommissioned. It sets
      the state for good, revokes every row of the child and no other, and adds one revocation
      of its identity, with a sequence above all earlier ones. */
  lemma DecommissionExactly(s: Store, local: Uri, id: Uri)
    ensures Decommission(s, local, id).Ok?
            <==> id in s.authorities && s.authorities[id].parent == Some(local) && s.authorities[id].state != Decommissioned
    ensures Decommission(s, local, id).Ok? ==>
      var t, n := Decommission(s, local, id).value, |s.revocations|;
      && OnlyStateChanges(s.authorities, t.authorities, id, Decommissioned) && RowsRevoked(s, t, id)
      && |t.revocations| == n + 1 && t.revocations[..n] == s.revocations && t.revocations[n].target == IdentityRef(id)
      && (forall r | r in s.revocations :: r.sequence < t.revocations[n].sequence)
    ensures Decommission(s, local, id).Err? ==>
      Decommission(s, local, id).error == if id !in s.authorities then NotFound
                                          else if s.authorities[id].parent != Some(local) then NotDirectChild else AlreadyDecommissioned
  {}

  // ----- runs -----

  datatype Event =
    | AcceptEvent(envelope: Envelope, ca: Pem, policy: Option<Pem>, now: Time)
    | EnrollEvent(envelope: Envelope, ca: Pem, policyCert: Pem, now: Time)
    | QuarantineEvent(id: Uri)
    | RestoreEvent(id: Uri)
    | DecommissionEvent(id: Uri)

  /** A refused operation leaves the store as it was. */
  function Apply(s: Store, local: Uri, event: Event): Store {
    match event
    case AcceptEvent(e, ca, policy, now) =>
      (match AcceptDelegation(s, e, ca, policy, now) case Ok(t) => t case Err(_) => s)
    case EnrollEvent(e, ca, policy, now) =>
      (match Enroll(s, e, ca, policy, now) case Ok(t) => t case Err(_) => s)
    case QuarantineEvent(id) => (match Quarantine(s, local, id) case Ok(t) => t case Err(_) => s)
    case RestoreEvent(id) => (match Restore(s, local, id) case Ok(t) => t case Err(_) => s)
    case DecommissionEvent(id) => (match Decommission(s, local, id) case Ok(t) => t case Err(_) => s)
  }

  function Run(s: Store, local: Uri, events: seq<Event>): Store
    decreases events
  {
    if events == [] then s else Run(Apply(s, local, events[0]), local, events[1..])
  }

  lemma ApplyPreserves(s: Store, local: Uri, event: Event)
    requires Invariant(s)
    ensures Invariant(Apply(s, local, event))
  {
    hide Invariant, AcceptDelegation;
    match event
    case AcceptEvent(e, ca, policy, now) =>
      if AcceptDelegation(s, e, ca, policy, now).Ok? {
        AcceptPreserves(s, e, ca, policy, now);
      }
    case EnrollEvent(e, ca, policy, now) =>
      if Enroll(s, e, ca, policy, now).Ok? {
        EnrollPreserves(s, e, ca, policy, now);
      }
    case QuarantineEvent(id) =>
      if Quarantine(s, local, id).Ok? {
        CommissionedPreserves(s, id, Quarantined);
      }
    case RestoreEvent(id) =>
      if Restore(s, local, id).Ok? {
        CommissionedPreserves(s, id, Active);
      }
    case DecommissionEvent(id) =>
      if Decommission(s, local, id).Ok? {
        DecommissionPreserves(s, local, id);
      }
  }

  /** The store of a router that has only its own root authority. */
  function InitialStore(root: Authority): Store {
    Store(map[root.identity := root], [], [], [], [])
  }

  lemma InitialInvariant(root: Authority)
    requires root.parent.None? && AuthorityRow(root.identity, root)
    ensures Invariant(InitialStore(root))
  {}

  /** The invariant holds after every sequence of operations. */
  lemma {:induction false} InvariantOverRuns(s: Store, local: Uri, events: seq<Event>)
    requires Invariant(s)
    ensures Invariant(Run(s, local, events))
    decreases events
  {
    if events != [] {
      ApplyPreserves(s, local, events[0]);
      InvariantOverRuns(Apply(s, local, events[0]), local, events[1..]);
    }
  }

  // ----- decommissioning is for ever -----

  /** Everything that belonged to a decommissioned authority is revoked, and so is its name. */
  ghost predicate Retired(s: Store, id: Uri) {
    && IsDecommissioned(s.authorities, id)
    && LatestActive(s.delegations, id).None?
    && (forall i | 0 <= i < |s.identities| && s.identities[i].authority == id :: s.identities[i].state == RevokedRow)
    && (forall i | 0 <= i < |s.credentials| && s.credentials[i].authority == id :: s.credentials[i].state == RevokedRow)
    && IsRevoked(s, s.authorities[id])
  }

  /** The past is kept: parents and delegation rows stay, and a decommissioned authority
      stays decommissioned and issues nothing new. */
  ghost predicate Extends(s: Store, t: Store) {
    && (forall id | id in s.authorities :: id in t.authorities && t.authorities[id].parent == s.authorities[id].parent)
    && |s.delegations| <= |t.delegations|
    && (forall i | 0 <= i < |s.delegations| :: t.delegations[i] == s.delegations[i].(state := t.delegations[i].state))
    && (forall id | IsDecommissioned(s.authorities, id) :: IsDecommissioned(t.authorities, id))
    && (forall i | |s.delegations| <= i < |t.delegations| :: !IsDecommissioned(s.authorities, t.delegations[i].issuer))
  }

  lemma AcceptExtends(s: Store, e: Envelope, ca: Pem, policy: Option<Pem>, now: Time)
    requires AcceptDelegation(s, e, ca, policy, now).Ok?
    ensures Extends(s, AcceptDelegation(s, e, ca, policy, now).value)
  {
    hide AcceptDelegation, EnvelopeGenuine, SignedBy, RouterCaProfile, PolicySignerProfile;
    AcceptChecks(s, e, ca, policy, now);
  }

  lemma ApplyExtends(s: Store, local: Uri, event: Event)
    ensures Extends(s, Apply(s, local, event))
  {
    match event
    case AcceptEvent(e, ca, policy, now) =>
      if AcceptDelegation(s, e, ca, policy, now).Ok? {
        AcceptExtends(s, e, ca, policy, now);
      }
    case EnrollEvent(e, ca, policy, now) =>
      if Enroll(s, e, ca, policy, now).Ok? {
        AcceptExtends(s, e, ca, Some(policy), now);
      }
    case _ =>
  }

  lemma ExtendsTransitive(s: Store, t: Store, u: Store)
    requires Extends(s, t) && Extends(t, u)
    ensures Extends(s, u)
  {}

  lemma {:induction false} RunExtends(s: Store, local: Uri, events: seq<Event>)
    ensures Extends(s, Run(s, local, events))
    decreases events
  {
    if events != [] {
      var t := Apply(s, local, events[0]);
      ApplyExtends(s, local, events[0]);
      RunExtends(t, local, events[1..]);
      ExtendsTransitive(s, t, Run(t, local, events[1..]));
    }
  }

  lemma DecommissionedIsRetired(t: Store, id: Uri)
    requires Invariant(t) && IsDecommissioned(t.authorities, id)
    ensures Retired(t, id)
  {
    hide Edge, AuthorityRow, Ordered, LatestActive, HasRow;
    HasParent(t, id);
    var i := DelegatedRow(t, id);
    RowOfRetired(t, t.delegations[i]);
  }

  lemma HasParent(t: Store, id: Uri)
    requires Invariant(t) && IsDecommissioned(t.authorities, id)
    ensures t.authorities[id].parent.Some? && t.authorities[id].identity == id
  {
    hide Edge, Ordered, CredentialsFollow, RevocationsFollow;
    assert AuthorityRow(id, t.authorities[id]);
  }

  lemma RowOfRetired(t: Store, d: Delegation)
    requires Edge(t.authorities, d) && IsDecommissioned(t.authorities, d.subject)
    ensures d.state == RevokedRow
  {
    hide EnvelopeGenuine, SignedBy, RouterCaProfile, PolicySignerProfile;
  }

  /** Decommissioning is absorbing over every further run: all that the authority held
      stays revoked, and it never issues another delegation. */
  lemma DecommissionedForEver(s: Store, local: Uri, events: seq<Event>, id: Uri)
    requires Invariant(s) && IsDecommissioned(s.authorities, id)
    ensures var t := Run(s, local, events);
            && Retired(t, id)
            && |s.delegations| <= |t.delegations|
            && forall i | |s.delegations| <= i < |t.delegations| :: t.delegations[i].issuer != id
  {
    hide Invariant, Run, Retired;
    var t := Run(s, local, events);
    InvariantOverRuns(s, local, events);
    RunExtends(s, local, events);
    DecommissionedIsRetired(t, id);
  }

  /** So the operation is for good: whatever is done after it, all that the child held stays
      revoked, and it never issues a delegation. */
  lemma DecommissionRetiresForEver(s: Store, local: Uri, id: Uri, events: seq<Event>)
    requires Invariant(s) && id in s.authorities && s.authorities[id].parent == Some(local) && s.authorities[id].state != Decommissioned
    ensures Decommission(s, local, id).Ok?
    ensures var t := Decommission(s, local, id).value;
            var u := Run(t, local, events);
            && Retired(t, id) && Retired(u, id)
            && |s.delegations| == |t.delegations| <= |u.delegations|
            && forall i | |t.delegations| <= i < |u.delegations| :: u.delegations[i].issuer != id
  {
    DecommissionExactly(s, local, id);
    DecommissionPreserves(s, local, id);
    hide Invariant, Decommission, Run, Retired;
    var t := Decommission(s, local, id).value;
    DecommissionedIsRetired(t, id);
    DecommissionedForEver(t, local, events, id);
  }
}
