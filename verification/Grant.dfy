/** Delegation grants, certificates and signed envelopes. Hashes are collision free and
    signatures are ideal: a fingerprint is the certificate it was taken of, a signature
    names the key that made it and the grant that was signed. */
module Grant {
  import opened Results
  import opened Sequences
  import opened Text
  import opened KeyScope
  import opened Identity

  type Time = int

  datatype Role = RouterCa | RouterRole | WorkloadIssuer
  datatype Control = Topology | Status | ConfigFromParent | ManageChildren

  datatype PublicKey = P256(id: nat) | OtherCurve(id: nat) | NotEllipticCurve(id: nat)

  /** basicConstraints, section 4.2.1.9 of RFC 5280. */
  datatype BasicConstraints = BasicConstraints(ca: bool, pathLength: Option<nat>)
  datatype KeyUsage = KeyUsage(digitalSignature: bool, keyCertSign: bool)

  datatype Certificate = Certificate(
    serial: nat,
    subjectName: string,
    issuerName: string,
    publicKey: PublicKey,
    signedBy: PublicKey,
    notBefore: Time,
    notAfter: Time,
    constraints: Option<BasicConstraints>,
    usage: Option<KeyUsage>,
    policySignerEku: Option<bool>,
    uriSans: seq<string>)

  /** A certificate text; it may fail to load. */
  datatype Pem = Pem(text: string, certificate: Certificate) | MalformedPem(text: string)

  datatype Fingerprint = Sha256(certificate: Certificate) | UnknownDigest(digits: string)

  datatype Grant = Grant(
    id: string,
    issuer: Uri,
    subjectCa: Fingerprint,
    subject: Uri,
    namespace: Scope,
    roles: seq<Role>,
    publish: seq<Scope>,
    subscribe: seq<Scope>,
    control: seq<Control>,
    depth: int,
    sequence: int,
    notBefore: Time,
    notAfter: Time)

  datatype Signature = GrantSignature(key: PublicKey, grant: Grant) | OtherSignature

  datatype Envelope = Envelope(payload: Grant, signature: Signature, signer: Pem, signerSha: Fingerprint)

  datatype TrustError =
    | InvalidEnvelope | SignerFingerprintMismatch | UnexpectedSigner | SignerIdentityMismatch
    | SignerKeyType | BadSignature | GrantNotCurrent | SignerNotCurrent
    | AnchorMismatch | ChainLength | AnchorInactive | NoPolicySigner | InvalidCertificate
    | WrongIssuer | WidensParent | DepthNotReduced | IssuerKeyType | IssuerNameMismatch
    | BadCertificateSignature | CaProfile | PolicyProfile | CaMismatch | Revoked
    | NotYetValid | Expired | StaleSequence | UnknownIssuer | AuthorityExists | UniqueViolation
    | ChainTooDeep | MissingParent | NoActiveDelegation

  // ----- validation of a grant -----

  const LOWER_DIGITS := "abcdefghijklmnopqrstuvwxyz0123456789.-"

  predicate IdentityChar(c: char) {
    'A' <= c <= 'Z' || 'a' <= c <= 'z' || '0' <= c <= '9' || c in "._~%/-"
  }

  /** A bounded SPIFFE router URI. */
  predicate SpiffeRouter(uri: Uri) {
    && "spiffe://" <= uri
    && var parts := Split(uri[9..]);
       && |parts| >= 3
       && 1 <= |parts[0]| <= 253 && (forall c | c in parts[0] :: c in LOWER_DIGITS)
       && parts[1] == "router"
       && var rest := Join(parts[2..]);
          1 <= |rest| <= 512 && forall c | c in rest :: IdentityChar(c)
  }

  predicate DomainName(domain: string) {
    1 <= |domain| <= 253 && '/' !in domain && forall c | c in domain :: c in LOWER_DIGITS
  }

  predicate IdentityPath(path: string) {
    1 <= |path| <= 512 && forall c | c in path :: IdentityChar(c)
  }

  /** Router URIs are made of a domain and a path. */
  lemma SpiffeOf(domain: string, path: string)
    requires DomainName(domain) && IdentityPath(path)
    ensures SpiffeRouter("spiffe://" + domain + "/router/" + path)
  {
    hide IdentityChar;
    var uri := "spiffe://" + domain + "/router/" + path;
    var rest := domain + "/" + ("router" + "/" + path);
    assert uri[9..] == rest;
    SplitAppend(domain, "router" + "/" + path);
    SplitAppend("router", path);
    SplitOne(domain);
    SplitOne("router");
    JoinSplit(path);
    var parts := Split(rest);
    assert parts == [domain] + (["router"] + Split(path));
    hide Split, Join;
    assert parts[2..] == Split(path);
  }

  /** And of nothing else. */
  lemma SpiffeRouterExactly(uri: Uri)
    ensures SpiffeRouter(uri) <==>
            exists domain, path | DomainName(domain) && IdentityPath(path) :: uri == "spiffe://" + domain + "/router/" + path
  {
    if SpiffeRouter(uri) {
      var domain, path := SpiffeParts(uri);
    }
    forall domain, path | DomainName(domain) && IdentityPath(path) && uri == "spiffe://" + domain + "/router/" + path
      ensures SpiffeRouter(uri)
    {
      SpiffeOf(domain, path);
    }
  }

  lemma SpiffeParts(uri: Uri) returns (domain: string, path: string)
    requires SpiffeRouter(uri)
    ensures DomainName(domain) && IdentityPath(path) && uri == "spiffe://" + domain + "/router/" + path
  {
    var parts := Split(uri[9..]);
    domain, path := parts[0], Join(parts[2..]);
    JoinSplit(uri[9..]);
    assert '/' !in LOWER_DIGITS by {
      LowerLetter('/');
    }
    hide Split, IdentityChar;
    assert parts[1..][1..] == parts[2..];
    assert uri[9..] == domain + "/" + ("router" + "/" + path);
    assert uri == "spiffe://" + uri[9..];
  }

  predicate ValidScopes(scopes: seq<Scope>) {
    |scopes| <= MAX_SCOPES && Distinct(scopes) && forall s | s in scopes :: WellFormed(s)
  }

  /** What `DelegationGrant.model_validate` accepts, contract included. */
  predicate ValidGrant(g: Grant) {
    && SpiffeRouter(g.issuer) && SpiffeRouter(g.subject)
    && WellFormed(g.namespace) && g.namespace.wildcard
    && 1 <= |g.roles| <= 3 && Distinct(g.roles)
    && ValidScopes(g.publish) && ValidScopes(g.subscribe)
    && |g.control| <= 4 && Distinct(g.control)
    && 0 <= g.depth <= 32 && 0 <= g.sequence
    && g.notBefore < g.notAfter
    && g.issuer != g.subject
    && DescendantTest(g.issuer, g.subject)
    && forall s | s in g.publish :: Contains(g.namespace, s)
  }

  /** `grant_is_subset`. */
  predicate GrantIsSubset(child: Grant, parent: Grant) {
    && child.issuer == parent.subject
    && Contains(parent.namespace, child.namespace)
    && child.namespace != parent.namespace
    && (forall r | r in child.roles :: r in parent.roles)
    && (forall c | c in child.control :: c in parent.control)
    && child.depth < parent.depth
    && parent.notBefore <= child.notBefore && child.notAfter <= parent.notAfter
    && AllCovered(child.publish, parent.publish)
    && AllCovered(child.subscribe, parent.subscribe)
  }

  /** A valid grant whose subject differs from its issuer by a slash alone. */
  lemma TrailingSlashGrantIsValid()
    ensures var g := Grant("g", "spiffe://efdi.global/router/a//", UnknownDigest(""), "spiffe://efdi.global/router/a/",
                           Scope(["a"], true), [RouterRole], [], [], [], 0, 0, 0, 1);
            ValidGrant(g) && !StrictlyBelow(g.issuer, g.subject)
  {
    TrailingSlashRouters();
    DescendantTestAcceptsTrailingSlashes();
    OneSegmentScope();
    hide SpiffeRouter, DescendantTest, StrictlyBelow, WellFormed;
  }

  lemma TrailingSlashRouters()
    ensures SpiffeRouter("spiffe://efdi.global/router/a//") && SpiffeRouter("spiffe://efdi.global/router/a/")
  {
    var domain := "efdi.global";
    TrustDomainName();
    hide DomainName, SpiffeRouter;
    SpiffeOf(domain, "a//");
    SpiffeOf(domain, "a/");
    assert "spiffe://" + domain + "/router/" == "spiffe://efdi.global/router/";
    assert "spiffe://efdi.global/router/" + "a//" == "spiffe://efdi.global/router/a//";
    assert "spiffe://efdi.global/router/" + "a/" == "spiffe://efdi.global/router/a/";
  }

  lemma TrustDomainName()
    ensures DomainName("efdi.global")
  {
    forall c | c in "efdi.global"
      ensures c in LOWER_DIGITS && c != '/'
    {
      assert 'a' <= c <= 'z' || c == '.';
      LowerLetter(c);
    }
  }

  lemma LowerLetter(c: char)
    ensures c in LOWER_DIGITS <==> 'a' <= c <= 'z' || '0' <= c <= '9' || c == '.' || c == '-'
  {}

  lemma OneSegmentScope()
    ensures WellFormed(Scope(["a"], true))
  {
    assert Segment("a");
  }

  // ----- signed envelopes -----

  predicate HasIdentity(c: Certificate, identity: Uri) {
    |c.uriSans| == 1 && "spiffe://" <= c.uriSans[0] && c.uriSans[0] == identity
  }

  /** `verify_grant_envelope`. */
  function VerifyEnvelope(e: Envelope, expected: Option<Fingerprint>, now: Time): Result<Grant, TrustError> {
    if !ValidGrant(e.payload) || e.signer.MalformedPem? then Err(InvalidEnvelope)
    else
      var cert := e.signer.certificate;
      var g := e.payload;
      var _ :- Check(Sha256(cert) == e.signerSha, SignerFingerprintMismatch);
      var _ :- Check(expected.Some? ==> Sha256(cert) == expected.value, UnexpectedSigner);
      var _ :- Check(HasIdentity(cert, g.issuer), SignerIdentityMismatch);
      var _ :- Check(cert.publicKey.P256?, SignerKeyType);
      var _ :- Check(e.signature == GrantSignature(cert.publicKey, g), BadSignature);
      var _ :- Check(g.notBefore <= now < g.notAfter, GrantNotCurrent);
      var _ :- Check(cert.notBefore <= now < cert.notAfter, SignerNotCurrent);
      Ok(g)
  }

  /** The part of envelope verification that the clock cannot change. */
  predicate EnvelopeGenuine(e: Envelope, expected: Option<Fingerprint>) {
    && ValidGrant(e.payload) && e.signer.Pem?
    && e.signerSha == Sha256(e.signer.certificate)
    && (expected.Some? ==> e.signerSha == expected.value)
    && HasIdentity(e.signer.certificate, e.payload.issuer)
    && e.signer.certificate.publicKey.P256?
    && e.signature == GrantSignature(e.signer.certificate.publicKey, e.payload)
  }

  predicate EnvelopeCurrent(e: Envelope, now: Time)
    requires e.signer.Pem?
  {
    && e.payload.notBefore <= now < e.payload.notAfter
    && e.signer.certificate.notBefore <= now < e.signer.certificate.notAfter
  }

  lemma VerifyEnvelopeExact(e: Envelope, expected: Option<Fingerprint>, now: Time)
    ensures VerifyEnvelope(e, expected, now) == Ok(e.payload)
            <==> EnvelopeGenuine(e, expected) && EnvelopeCurrent(e, now)
    ensures VerifyEnvelope(e, expected, now).Ok? ==> VerifyEnvelope(e, expected, now).value == e.payload
  {}

  // ----- narrowing -----

  /** `narrow` gives nothing that `wide` does not: roles, control actions, keys, time. */
  ghost predicate Narrower(narrow: Grant, wide: Grant) {
    && (forall r | r in narrow.roles :: r in wide.roles)
    && (forall c | c in narrow.control :: c in wide.control)
    && (forall k | Key(k) && AdmittedBy(narrow.publish, k) :: AdmittedBy(wide.publish, k))
    && (forall k | Key(k) && AdmittedBy(narrow.subscribe, k) :: AdmittedBy(wide.subscribe, k))
    && wide.notBefore <= narrow.notBefore && narrow.notAfter <= wide.notAfter
  }

  /** The subset test means exactly this: a grant by the subject of the wider one, strictly below
      its namespace, less deep, and narrower. */
  lemma SubsetExactly(child: Grant, parent: Grant)
    requires ValidGrant(child) && ValidGrant(parent)
    ensures GrantIsSubset(child, parent) <==>
            && child.issuer == parent.subject && parent.namespace.parts < child.namespace.parts
            && child.depth < parent.depth && Narrower(child, parent)
    ensures GrantIsSubset(child, parent) ==> DescendantTest(parent.subject, child.subject)
  {
    AllCoveredIsInclusion(child.publish, parent.publish);
    AllCoveredIsInclusion(child.subscribe, parent.subscribe);
    hide SpiffeRouter, DescendantTest, AllCovered, WellFormed;
    var low, high := child.namespace, parent.namespace;
    assert Contains(high, low) <==> high.parts <= low.parts;
  }

  lemma NarrowerTransitive(a: Grant, b: Grant, c: Grant)
    requires Narrower(b, a) && Narrower(c, b)
    ensures Narrower(c, a)
  {}
}
