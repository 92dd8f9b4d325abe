/** Verification of a delegation chain from a locally trusted anchor, and what an
    accepted chain guarantees. */
module TrustChain {
  import opened Results
  import opened Text
  import opened KeyScope
  import opened Identity
  import opened Grant

  const MAX_CHAIN := 33
  const MAX_CERTIFICATE_BYTES := 64 * 1024

  datatype AuthorityState = Active | Quarantined | Decommissioned

  /** A row of the authority table. */
  datatype Authority = Authority(
    identity: Uri,
    namespace: Scope,
    caFingerprint: Fingerprint,
    caCert: Pem,
    policyFingerprint: Option<Fingerprint>,
    policyCert: Option<Pem>,
    parent: Option<Uri>,
    depth: int,
    state: AuthorityState,
    notAfter: Time)

  datatype Verified = Verified(
    identity: Uri,
    namespace: Scope,
    caFingerprint: Fingerprint,
    caCert: Pem,
    policyFingerprint: Fingerprint,
    policyCert: Pem,
    depth: int,
    notAfter: Time,
    grant: Option<Grant>)

  datatype Anchor = Anchor(
    identity: Uri,
    namespace: Scope,
    caFingerprint: Fingerprint,
    caCert: Pem,
    policyFingerprint: Option<Fingerprint>,
    policyCert: Option<Pem>,
    depth: int,
    notAfter: Time)

  datatype Step = Step(envelope: Envelope, caCert: Option<Pem>, policyCert: Option<Pem>)

  datatype Proof = Proof(anchor: Anchor, steps: seq<Step>)

  /** What may be listed as revoked: an identity or a certificate. */
  datatype Reference = IdentityRef(identity: Uri) | CertificateRef(fingerprint: Fingerprint)

  function AnchorOf(a: Authority): Anchor {
    Anchor(a.identity, a.namespace, a.caFingerprint, a.caCert, a.policyFingerprint, a.policyCert, a.depth, a.notAfter)
  }

  // ----- certificate checks -----

  /** Issued and signed by the holder of the issuer's certificate. */
  predicate SignedBy(certificate: Certificate, issuer: Certificate) {
    && !issuer.publicKey.NotEllipticCurve?
    && certificate.issuerName == issuer.subjectName
    && certificate.signedBy == issuer.publicKey
  }

  predicate RouterCaProfile(c: Certificate) {
    && c.constraints.Some? && c.constraints.value.ca && c.constraints.value.pathLength.Some?
    && c.usage.Some? && c.usage.value.keyCertSign
    && c.publicKey.P256?
  }

  predicate PolicySignerProfile(c: Certificate, identity: Uri) {
    && c.constraints.Some? && !c.constraints.value.ca
    && c.usage.Some? && c.usage.value.digitalSignature && c.policySignerEku == Some(true)
    && c.uriSans == [identity] && "spiffe://" <= identity
    && c.publicKey.P256?
  }

  function VerifyIssuedBy(certificate: Certificate, issuer: Certificate): (r: Result<(), TrustError>)
    ensures r.Ok? <==> SignedBy(certificate, issuer)
  {
    var _ :- Check(!issuer.publicKey.NotEllipticCurve?, IssuerKeyType);
    var _ :- Check(certificate.issuerName == issuer.subjectName, IssuerNameMismatch);
    Check(certificate.signedBy == issuer.publicKey, BadCertificateSignature)
  }

  function VerifyCaProfile(c: Certificate): (r: Result<(), TrustError>)
    ensures r.Ok? <==> RouterCaProfile(c)
  {
    var _ :- Check(c.constraints.Some? && c.usage.Some?, CaProfile);
    var _ :- Check(c.constraints.value.ca && c.constraints.value.pathLength.Some? && c.usage.value.keyCertSign, CaProfile);
    Check(c.publicKey.P256?, CaProfile)
  }

  function VerifyPolicyProfile(c: Certificate, identity: Uri): (r: Result<(), TrustError>)
    ensures r.Ok? <==> PolicySignerProfile(c, identity)
  {
    var _ :- Check(c.constraints.Some? && c.usage.Some? && c.policySignerEku.Some?, PolicyProfile);
    var _ :- Check(!c.constraints.value.ca && c.usage.value.digitalSignature && c.policySignerEku.value, PolicyProfile);
    var _ :- Check(HasIdentity(c, identity), PolicyProfile);
    Check(c.publicKey.P256?, PolicyProfile)
  }

  predicate ProperCertificates(ca: Certificate, policy: Certificate, issuerCa: Certificate, subject: Uri) {
    && SignedBy(ca, issuerCa) && SignedBy(policy, issuerCa)
    && RouterCaProfile(ca) && PolicySignerProfile(policy, subject)
  }

  // ----- one step -----

  function Min(a: Time, b: Time): Time {
    if a <= b then a else b
  }

  /** One round of the loop of `verify_trust_chain`: from the issuer of a step to its subject. */
  function VerifyStep(issuer: Verified, step: Step, revoked: set<Reference>, now: Time): Result<Verified, TrustError> {
    if step.caCert.None? || step.policyCert.None? then Err(InvalidCertificate)
    else
      var caPem, policyPem := step.caCert.value, step.policyCert.value;
      var _ :- Check(Utf8Length(caPem.text) <= MAX_CERTIFICATE_BYTES
                     && Utf8Length(policyPem.text) <= MAX_CERTIFICATE_BYTES, InvalidCertificate);
      var g :- VerifyEnvelope(step.envelope, Some(issuer.policyFingerprint), now);
      var _ :- Check(g.issuer == issuer.identity, WrongIssuer);
      var _ :- (match issuer.grant
                case Some(wide) => Check(GrantIsSubset(g, wide), WidensParent)
                case None => Check(g.depth < issuer.depth, DepthNotReduced));
      if caPem.MalformedPem? || policyPem.MalformedPem? || issuer.caCert.MalformedPem? then Err(InvalidCertificate)
      else
        var ca, policy, issuerCa := caPem.certificate, policyPem.certificate, issuer.caCert.certificate;
        var _ :- VerifyIssuedBy(ca, issuerCa);
        var _ :- VerifyIssuedBy(policy, issuerCa);
        var _ :- VerifyCaProfile(ca);
        var _ :- VerifyPolicyProfile(policy, g.subject);
        var _ :- Check(Sha256(ca) == g.subjectCa, CaMismatch);
        var _ :- Check(IdentityRef(g.subject) !in revoked && CertificateRef(Sha256(ca)) !in revoked
                       && CertificateRef(Sha256(policy)) !in revoked, Revoked);
        var notAfter := Min(g.notAfter, Min(ca.notAfter, policy.notAfter));
        var _ :- Check(ca.notBefore <= now && policy.notBefore <= now, NotYetValid);
        var _ :- Check(now < notAfter, Expired);
        Ok(Verified(g.subject, g.namespace, Sha256(ca), caPem, Sha256(policy), policyPem, g.depth, notAfter, Some(g)))
  }

  function FoldChain(issuer: Verified, steps: seq<Step>, revoked: set<Reference>, now: Time): Result<Verified, TrustError>
    decreases steps
  {
    if steps == [] then Ok(issuer)
    else
      var subject :- VerifyStep(issuer, steps[0], revoked, now);
      FoldChain(subject, steps[1..], revoked, now)
  }

  /** The authority that the trusted anchor itself stands for. */
  function AnchorAuthority(a: Authority): Result<Verified, TrustError> {
    if a.policyFingerprint.None? || a.policyCert.None? then Err(NoPolicySigner)
    else Ok(Verified(a.identity, a.namespace, a.caFingerprint, a.caCert,
                     a.policyFingerprint.value, a.policyCert.value, a.depth, a.notAfter, None))
  }

  predicate AnchorUsable(a: Authority, revoked: set<Reference>, now: Time) {
    && a.state == Active
    && IdentityRef(a.identity) !in revoked && CertificateRef(a.caFingerprint) !in revoked
    && now < a.notAfter
  }

  function ChainVerdict(proof: Proof, anchor: Authority, revoked: set<Reference>, now: Time): Result<Verified, TrustError> {
    var _ :- Check(proof.anchor == AnchorOf(anchor), AnchorMismatch);
    var _ :- Check(1 <= |proof.steps| < MAX_CHAIN, ChainLength);
    var _ :- Check(AnchorUsable(anchor, revoked, now), AnchorInactive);
    var issuer :- AnchorAuthority(anchor);
    FoldChain(issuer, proof.steps, revoked, now)
  }

  /** `verify_trust_chain`: the loop that rebinds the issuer computes the verdict. */
  method VerifyTrustChain(proof: Proof, anchor: Authority, revoked: set<Reference>, now: Time)
    returns (r: Result<Verified, TrustError>)
    ensures r == ChainVerdict(proof, anchor, revoked, now)
  {
    if proof.anchor != AnchorOf(anchor) {
      return Err(AnchorMismatch);
    }
    if !(1 <= |proof.steps| < MAX_CHAIN) {
      return Err(ChainLength);
    }
    if !AnchorUsable(anchor, revoked, now) {
      return Err(AnchorInactive);
    }
    r := AnchorAuthority(anchor);
    var index := 0;
    while index < |proof.steps| && r.Ok?
      invariant 0 <= index <= |proof.steps|
      invariant r.Ok? ==> FoldChain(r.value, proof.steps[index..], revoked, now) == ChainVerdict(proof, anchor, revoked, now)
      invariant r.Err? ==> r == ChainVerdict(proof, anchor, revoked, now)
    {
      assert proof.steps[index..][1..] == proof.steps[index + 1..];
      r := VerifyStep(r.value, proof.steps[index], revoked, now);
      index := index + 1;
    }
  }

  // ----- what depends on the clock and on revocation, and what does not -----

  /** Everything a step must satisfy whatever the time and the revocation list. */
  predicate StepSound(issuer: Verified, step: Step) {
    && step.caCert.Some? && step.policyCert.Some?
    && Utf8Length(step.caCert.value.text) <= MAX_CERTIFICATE_BYTES
    && Utf8Length(step.policyCert.value.text) <= MAX_CERTIFICATE_BYTES
    && EnvelopeGenuine(step.envelope, Some(issuer.policyFingerprint))
    && step.envelope.payload.issuer == issuer.identity
    && (match issuer.grant
        case Some(wide) => GrantIsSubset(step.envelope.payload, wide)
        case None => step.envelope.payload.depth < issuer.depth)
    && step.caCert.value.Pem? && step.policyCert.value.Pem? && issuer.caCert.Pem?
    && ProperCertificates(step.caCert.value.certificate, step.policyCert.value.certificate,
                          issuer.caCert.certificate, step.envelope.payload.subject)
    && Sha256(step.caCert.value.certificate) == step.envelope.payload.subjectCa
  }

  /** Inside every window of a step: grant, signer certificate, both subject certificates. */
  predicate StepCurrent(step: Step, now: Time)
    requires step.caCert.Some? && step.policyCert.Some?
    requires step.caCert.value.Pem? && step.policyCert.value.Pem? && step.envelope.signer.Pem?
  {
    && EnvelopeCurrent(step.envelope, now)
    && step.caCert.value.certificate.notBefore <= now < step.caCert.value.certificate.notAfter
    && step.policyCert.value.certificate.notBefore <= now < step.policyCert.value.certificate.notAfter
  }

  predicate StepUnrevoked(step: Step, revoked: set<Reference>)
    requires step.caCert.Some? && step.policyCert.Some?
    requires step.caCert.value.Pem? && step.policyCert.value.Pem?
  {
    && IdentityRef(step.envelope.payload.subject) !in revoked
    && CertificateRef(Sha256(step.caCert.value.certificate)) !in revoked
    && CertificateRef(Sha256(step.policyCert.value.certificate)) !in revoked
  }

  /** The subject of a sound step, named without reference to the clock. */
  function SubjectOf(issuer: Verified, step: Step): Verified
    requires StepSound(issuer, step)
  {
    var g := step.envelope.payload;
    var ca, policy := step.caCert.value, step.policyCert.value;
    Verified(g.subject, g.namespace, Sha256(ca.certificate), ca, Sha256(policy.certificate), policy, g.depth,
             Min(g.notAfter, Min(ca.certificate.notAfter, policy.certificate.notAfter)), Some(g))
  }

  lemma VerifyStepExact(issuer: Verified, step: Step, revoked: set<Reference>, now: Time)
    ensures VerifyStep(issuer, step, revoked, now).Ok?
            <==> StepSound(issuer, step) && StepCurrent(step, now) && StepUnrevoked(step, revoked)
    ensures VerifyStep(issuer, step, revoked, now).Ok?
            ==> VerifyStep(issuer, step, revoked, now).value == SubjectOf(issuer, step)
  {
    VerifyEnvelopeExact(step.envelope, Some(issuer.policyFingerprint), now);
  }

  /** Every step in turn is sound, current and unrevoked, below the subject of the one before. */
  predicate StepsStand(issuer: Verified, steps: seq<Step>, revoked: set<Reference>, now: Time)
    decreases steps
  {
    steps != [] ==>
      && StepSound(issuer, steps[0]) && StepCurrent(steps[0], now) && StepUnrevoked(steps[0], revoked)
      && StepsStand(SubjectOf(issuer, steps[0]), steps[1..], revoked, now)
  }

  lemma {:induction false} FoldExactly(issuer: Verified, steps: seq<Step>, revoked: set<Reference>, now: Time)
    ensures FoldChain(issuer, steps, revoked, now).Ok? <==> StepsStand(issuer, steps, revoked, now)
    decreases steps
  {
    if steps != [] {
      VerifyStepExact(issuer, steps[0], revoked, now);
      hide VerifyStep, StepSound, StepCurrent, StepUnrevoked, SubjectOf;
      if VerifyStep(issuer, steps[0], revoked, now).Ok? {
        FoldExactly(VerifyStep(issuer, steps[0], revoked, now).value, steps[1..], revoked, now);
      }
    }
  }

  /** A chain is accepted exactly when its anchor is the trusted one in every field, has from 1 to
      32 steps, the anchor is active, unrevoked, unexpired and has a policy signer, and every
      step stands. */
  lemma AcceptedExactly(proof: Proof, anchor: Authority, revoked: set<Reference>, now: Time)
    ensures ChainVerdict(proof, anchor, revoked, now).Ok? <==>
            && proof.anchor == Anchor(anchor.identity, anchor.namespace, anchor.caFingerprint, anchor.caCert,
                                      anchor.policyFingerprint, anchor.policyCert, anchor.depth, anchor.notAfter)
            && 1 <= |proof.steps| <= 32
            && anchor.state == Active && now < anchor.notAfter
            && IdentityRef(anchor.identity) !in revoked && CertificateRef(anchor.caFingerprint) !in revoked
            && anchor.policyFingerprint.Some? && anchor.policyCert.Some?
            && StepsStand(Verified(anchor.identity, anchor.namespace, anchor.caFingerprint, anchor.caCert,
                                   anchor.policyFingerprint.value, anchor.policyCert.value, anchor.depth, anchor.notAfter, None),
                          proof.steps, revoked, now)
  {
    hide FoldChain, StepsStand;
    if AnchorAuthority(anchor).Ok? {
      FoldExactly(AnchorAuthority(anchor).value, proof.steps, revoked, now);
    }
  }

  // ----- attenuation -----

  /** An authority that was established by a grant, and agrees with it. */
  predicate Granted(v: Verified) {
    && v.grant.Some? && ValidGrant(v.grant.value)
    && v.identity == v.grant.value.subject
    && v.namespace == v.grant.value.namespace
    && v.depth == v.grant.value.depth
  }

  /** `low` lies at least `n` delegations below `high`: narrower, and one depth and one
      namespace segment further for each of them. */
  ghost predicate Under(low: Verified, high: Verified, n: nat)
    requires Granted(low) && Granted(high)
  {
    && Narrower(low.grant.value, high.grant.value)
    && high.namespace.parts <= low.namespace.parts
    && |low.namespace.parts| >= |high.namespace.parts| + n
    && low.depth <= high.depth - n
    && (if n > 0 then DescendantTest(high.identity, low.identity) else high.identity == low.identity)
  }

  lemma StepUnder(issuer: Verified, step: Step)
    requires Granted(issuer) && StepSound(issuer, step)
    ensures Granted(SubjectOf(issuer, step)) && Under(SubjectOf(issuer, step), issuer, 1)
  {
    SubsetExactly(step.envelope.payload, issuer.grant.value);
  }

  lemma UnderTransitive(low: Verified, middle: Verified, high: Verified, n: nat, m: nat)
    requires Granted(low) && Granted(middle) && Granted(high)
    requires Under(middle, high, n) && Under(low, middle, m)
    ensures Under(low, high, n + m)
  {
    NarrowerTransitive(high.grant.value, middle.grant.value, low.grant.value);
    if n > 0 && m > 0 {
      DescendantTransitive(high.identity, middle.identity, low.identity);
    }
  }

  /** From any granted issuer, an accepted run of steps descends once per step. */
  lemma {:induction false} FoldAttenuates(issuer: Verified, steps: seq<Step>, revoked: set<Reference>, now: Time)
    requires Granted(issuer)
    requires FoldChain(issuer, steps, revoked, now).Ok?
    ensures Granted(FoldChain(issuer, steps, revoked, now).value)
    ensures Under(FoldChain(issuer, steps, revoked, now).value, issuer, |steps|)
    decreases steps
  {
    if steps != [] {
      VerifyStepExact(issuer, steps[0], revoked, now);
      var subject := SubjectOf(issuer, steps[0]);
      StepUnder(issuer, steps[0]);
      FoldAttenuates(subject, steps[1..], revoked, now);
      UnderTransitive(FoldChain(subject, steps[1..], revoked, now).value, subject, issuer, 1, |steps| - 1);
    }
  }

  /** What an accepted chain establishes: `last` is narrower than the first grant, and its
      identity and depth are bounded by the anchor. */
  ghost predicate EndToEnd(last: Verified, first: Grant, final: Grant, anchor: Authority, n: nat) {
    && last.grant == Some(final) && last.identity == final.subject
    && Narrower(final, first)
    && DescendantTest(anchor.identity, last.identity)
    && first.namespace.parts <= last.namespace.parts
    && |last.namespace.parts| >= |first.namespace.parts| + n - 1
    && 0 <= last.depth <= anchor.depth - n
  }

  /** End-to-end attenuation: a chain of n grants that verifies narrows from its first grant
      to its last, and n is at most the depth of the anchor. */
  lemma ChainAttenuates(proof: Proof, anchor: Authority, revoked: set<Reference>, now: Time)
    requires ChainVerdict(proof, anchor, revoked, now).Ok?
    ensures EndToEnd(ChainVerdict(proof, anchor, revoked, now).value,
                     proof.steps[0].envelope.payload, proof.steps[|proof.steps| - 1].envelope.payload,
                     anchor, |proof.steps|)
  {
    hide VerifyStep, SpiffeRouter, ValidScopes, DescendantTest, Narrower;
    var issuer := AnchorAuthority(anchor).value;
    var first := FirstSubject(issuer, proof.steps, revoked, now);
    FoldAttenuates(first, proof.steps[1..], revoked, now);
    LastGrant(issuer, proof.steps, revoked, now);
    var last := ChainVerdict(proof, anchor, revoked, now).value;
    if |proof.steps| > 1 {
      DescendantTransitive(issuer.identity, first.identity, last.identity);
    }
  }

  lemma FirstSubject(issuer: Verified, steps: seq<Step>, revoked: set<Reference>, now: Time) returns (first: Verified)
    requires issuer.grant.None? && steps != [] && FoldChain(issuer, steps, revoked, now).Ok?
    ensures FoldChain(first, steps[1..], revoked, now) == FoldChain(issuer, steps, revoked, now)
    ensures Granted(first) && first.grant == Some(steps[0].envelope.payload)
    ensures DescendantTest(issuer.identity, first.identity) && first.depth < issuer.depth
  {
    VerifyStepExact(issuer, steps[0], revoked, now);
    first := SubjectOf(issuer, steps[0]);
  }

  lemma {:induction false} LastGrant(issuer: Verified, steps: seq<Step>, revoked: set<Reference>, now: Time)
    requires steps != [] && FoldChain(issuer, steps, revoked, now).Ok?
    ensures FoldChain(issuer, steps, revoked, now).value.grant == Some(steps[|steps| - 1].envelope.payload)
    decreases steps
  {
    VerifyStepExact(issuer, steps[0], revoked, now);
    if |steps| > 1 {
      LastGrant(SubjectOf(issuer, steps[0]), steps[1..], revoked, now);
    }
  }

  /** Nothing enters an accepted chain unsigned: the grant of every step was signed by the
      policy key certified for the authority the step before it established. */
  lemma {:induction false} EveryGrantIsSigned(issuer: Verified, steps: seq<Step>, revoked: set<Reference>, now: Time, i: nat)
    requires i < |steps| && FoldChain(issuer, steps, revoked, now).Ok?
    ensures FoldChain(issuer, steps[..i], revoked, now).Ok?
    ensures var signer := FoldChain(issuer, steps[..i], revoked, now).value;
            && steps[i].envelope.signer.Pem?
            && signer.policyFingerprint == Sha256(steps[i].envelope.signer.certificate)
            && steps[i].envelope.payload.issuer == signer.identity
            && steps[i].envelope.signature
               == GrantSignature(steps[i].envelope.signer.certificate.publicKey, steps[i].envelope.payload)
  {
    hide VerifyStep;
    FoldSplit(issuer, steps[..i], steps[i..], revoked, now);
    assert steps[..i] + steps[i..] == steps;
    VerifyStepExact(FoldChain(issuer, steps[..i], revoked, now).value, steps[i], revoked, now);
  }

  /** Nor does any certificate: the router CA and the policy signer of every step name the CA
      of the authority established before it as their issuer and carry the signature of its
      key, and they have the profiles of a P-256 router CA and of a policy signer that is no CA
      and belongs to the subject alone. */
  lemma {:induction false} EveryCertificateIsSigned(issuer: Verified, steps: seq<Step>, revoked: set<Reference>, now: Time, i: nat)
    requires i < |steps| && FoldChain(issuer, steps, revoked, now).Ok?
    ensures FoldChain(issuer, steps[..i], revoked, now).Ok?
    ensures var above := FoldChain(issuer, steps[..i], revoked, now).value;
            && (if i == 0 then above.caCert == issuer.caCert else steps[i - 1].caCert == Some(above.caCert)) && above.caCert.Pem?
            && steps[i].caCert.Some? && steps[i].caCert.value.Pem? && steps[i].policyCert.Some? && steps[i].policyCert.value.Pem?
            && var parent, ca, policy := above.caCert.certificate, steps[i].caCert.value.certificate, steps[i].policyCert.value.certificate;
               && !parent.publicKey.NotEllipticCurve?
               && ca.issuerName == policy.issuerName == parent.subjectName
               && ca.signedBy == policy.signedBy == parent.publicKey
               && ca.publicKey.P256? && ca.constraints.Some? && ca.constraints.value.ca && ca.constraints.value.pathLength.Some?
               && ca.usage.Some? && ca.usage.value.keyCertSign
               && policy.publicKey.P256? && policy.constraints.Some? && !policy.constraints.value.ca
               && policy.usage.Some? && policy.usage.value.digitalSignature && policy.policySignerEku == Some(true)
               && policy.uriSans == [steps[i].envelope.payload.subject]
               && steps[i].envelope.payload.subjectCa == Sha256(ca)
  {
    hide VerifyStep;
    FoldSplit(issuer, steps[..i], steps[i..], revoked, now);
    assert steps[..i] + steps[i..] == steps;
    VerifyStepExact(FoldChain(issuer, steps[..i], revoked, now).value, steps[i], revoked, now);
    hide EnvelopeGenuine, GrantIsSubset, Utf8Length;
    if i > 0 {
      EstablishedByLast(issuer, steps[..i], revoked, now);
    }
  }

  /** The authority that a chain establishes holds the certificate of its last step. */
  lemma {:induction false} EstablishedByLast(issuer: Verified, steps: seq<Step>, revoked: set<Reference>, now: Time)
    requires steps != [] && FoldChain(issuer, steps, revoked, now).Ok?
    ensures var last := steps[|steps| - 1];
            last.caCert.Some? && FoldChain(issuer, steps, revoked, now).value.caCert == last.caCert.value
    decreases steps
  {
    VerifyStepExact(issuer, steps[0], revoked, now);
    hide VerifyStep, EnvelopeGenuine, GrantIsSubset, Utf8Length, ProperCertificates;
    if |steps| > 1 {
      EstablishedByLast(SubjectOf(issuer, steps[0]), steps[1..], revoked, now);
    }
  }

  // ----- shape of acceptance -----

  lemma {:induction false} FoldSplit(issuer: Verified, a: seq<Step>, b: seq<Step>, revoked: set<Reference>, now: Time)
    ensures FoldChain(issuer, a + b, revoked, now)
            == (match FoldChain(issuer, a, revoked, now)
                case Ok(middle) => FoldChain(middle, b, revoked, now)
                case Err(e) => Err(e))
    decreases a
  {
    if a == [] {
      assert a + b == b;
    } else {
      assert (a + b)[1..] == a[1..] + b;
      var first := VerifyStep(issuer, a[0], revoked, now);
      if first.Ok? {
        FoldSplit(first.value, a[1..], b, revoked, now);
      }
    }
  }

  /** Every non-empty prefix of an accepted chain is accepted. */
  lemma PrefixAccepted(proof: Proof, anchor: Authority, revoked: set<Reference>, now: Time, n: nat)
    requires ChainVerdict(proof, anchor, revoked, now).Ok?
    requires 1 <= n <= |proof.steps|
    ensures ChainVerdict(proof.(steps := proof.steps[..n]), anchor, revoked, now).Ok?
  {
    FoldSplit(AnchorAuthority(anchor).value, proof.steps[..n], proof.steps[n..], revoked, now);
    assert proof.steps[..n] + proof.steps[n..] == proof.steps;
  }

  lemma {:induction false} FoldConvex(issuer: Verified, steps: seq<Step>, less: set<Reference>, more: set<Reference>,
                                      before: Time, now: Time, after: Time)
    requires less <= more && before <= now <= after
    requires FoldChain(issuer, steps, more, before).Ok? && FoldChain(issuer, steps, more, after).Ok?
    ensures FoldChain(issuer, steps, less, now) == FoldChain(issuer, steps, more, before)
    decreases steps
  {
    if steps != [] {
      VerifyStepExact(issuer, steps[0], more, before);
      VerifyStepExact(issuer, steps[0], more, after);
      VerifyStepExact(issuer, steps[0], less, now);
      FoldConvex(SubjectOf(issuer, steps[0]), steps[1..], less, more, before, now, after);
    }
  }

  /** The accepting times form one interval, revoking less never rejects, and within the
      interval the established authority is always the same one. */
  lemma AcceptanceIsConvex(proof: Proof, anchor: Authority, less: set<Reference>, more: set<Reference>,
                           before: Time, now: Time, after: Time)
    requires less <= more && before <= now <= after
    requires ChainVerdict(proof, anchor, more, before).Ok? && ChainVerdict(proof, anchor, more, after).Ok?
    ensures ChainVerdict(proof, anchor, less, now) == ChainVerdict(proof, anchor, more, before)
  {
    FoldConvex(AnchorAuthority(anchor).value, proof.steps, less, more, before, now, after);
  }
}
