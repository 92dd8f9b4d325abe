/** Enrollment of child routers by single-use invitations: the grant that is built for a
    child, and what becomes of an invitation. */
module Enrollment {
  import opened Results
  import opened KeyScope
  import opened Text
  import opened Identity
  import opened Grant
  import opened TrustChain
  import opened TrustStore
  import opened TrustRegistry

  /** The three signing requests of a child, told apart by their digests. */
  datatype Keys = Keys(routerCa: string, transport: string, policySigner: string)

  datatype Issued = Issued(ca: Pem, transport: Pem, policy: Pem)

  datatype Use = Use(keys: Keys, authority: Uri, envelope: Envelope, issued: Issued)

  datatype Invitation = Invitation(namespace: string, depth: int, expires: Time, used: Option<Use>)

  type Invitations = map<string, Invitation>

  datatype EnrollError =
    | NotActive | BadRequest | TooDeep | AlreadyChild | TokenTaken
    | UnknownInvitation | UsedWithOtherKeys | InvitationExpired | SigningFailed | DelegationFailed
    | SecretUnavailable | ParentUnavailable | ChainUnavailable

  const CLOCK_MARGIN := 120

  // ----- invitations -----

  /** `create_invitation`: the invitation for a child of the router at `ownPath`. */
  function NewInvitation(issuer: Authority, members: set<string>, ownPath: string, requested: string,
                         depth: int, hours: int, now: Time): Result<Invitation, EnrollError>
  {
    var _ :- Check(issuer.state == Active && now < issuer.notAfter, NotActive);
    var _ :- Check(0 <= depth <= 8 && 1 <= hours <= 168 && ChildNamespace(ownPath, requested).Path?, BadRequest);
    var child := ChildNamespace(ownPath, requested).value;
    var _ :- Check(depth < issuer.depth, TooDeep);
    var _ :- Check(child !in members, AlreadyChild);
    Ok(Invitation(child, depth, Min(now + 3600 * hours, issuer.notAfter), None))
  }

  // ----- the grant of a child -----

  function Sequence(rows: seq<Delegation>, issuer: Uri): int {
    match HighestSequence(rows, issuer)
    case None => 1
    case Some(n) => n + 1
  }

  /** The grant of an enrolled child: its own subtree to publish, its parent's to read. */
  function BuildGrant(issuer: Authority, subject: Uri, scope: Scope, ca: Certificate, policy: Certificate,
                      depth: int, sequence: int, id: string, now: Time): Grant
  {
    Grant(id, issuer.identity, Sha256(ca), subject, scope,
          [RouterCa, RouterRole, WorkloadIssuer], [scope], [issuer.namespace],
          [Topology, Status, ConfigFromParent, ManageChildren],
          depth, sequence, now - CLOCK_MARGIN, Min(ca.notAfter, Min(policy.notAfter, issuer.notAfter)))
  }

  /** `sign_grant`, with the local policy certificate and its key. */
  function Sign(g: Grant, signer: Certificate): Envelope {
    Envelope(g, GrantSignature(signer.publicKey, g), Pem("", signer), Sha256(signer))
  }

  /** What enrollment hands out: every role and control action, its own subtree to publish,
      and at least that to read. */
  predicate Standard(g: Grant) {
    && (forall r: Role :: r in g.roles) && (forall c: Control :: c in g.control)
    && g.publish == [g.namespace] && AllCovered([g.namespace], g.subscribe)
  }

  /** A child's grant narrows the grant of the router that enrolls it exactly when it is less
      deep and the margin does not reach back beyond that router's own grant. */
  lemma ChildGrantNarrows(issuer: Authority, wide: Grant, subject: Uri, scope: Scope, ca: Certificate, policy: Certificate,
                          depth: int, sequence: int, id: string, now: Time)
    requires Standard(wide) && wide.subject == issuer.identity && wide.namespace == issuer.namespace
    requires wide.namespace.wildcard && scope.wildcard && wide.namespace.parts < scope.parts
    requires issuer.notAfter <= wide.notAfter
    ensures var g := BuildGrant(issuer, subject, scope, ca, policy, depth, sequence, id, now);
            && Standard(g)
            && (GrantIsSubset(g, wide) <==> depth < wide.depth && wide.notBefore <= now - CLOCK_MARGIN)
  {
    var g := BuildGrant(issuer, subject, scope, ca, policy, depth, sequence, id, now);
    assert Contains(issuer.namespace, scope);
    assert wide.namespace in wide.publish && wide.namespace in [wide.namespace];
    assert issuer.namespace in g.subscribe;
    assert AllCovered(g.publish, wide.publish);
    assert AllCovered(g.subscribe, wide.subscribe);
    forall r: Role
      ensures r in g.roles
    {
      assert r == g.roles[0] || r == g.roles[1] || r == g.roles[2];
    }
    forall c: Control
      ensures c in g.control
    {
      assert c == g.control[0] || c == g.control[1] || c == g.control[2] || c == g.control[3];
    }
  }

  /** It is also a valid grant, exactly when the two identities are proper, the depth and
      sequence are in range and its window is not empty. */
  lemma ChildGrantIsValid(issuer: Authority, subject: Uri, scope: Scope, ca: Certificate, policy: Certificate,
                          depth: int, sequence: int, id: string, now: Time)
    requires WellFormed(scope) && scope.wildcard
    ensures var g := BuildGrant(issuer, subject, scope, ca, policy, depth, sequence, id, now);
            ValidGrant(g) <==>
              && SpiffeRouter(issuer.identity) && SpiffeRouter(subject) && issuer.identity != subject
              && DescendantTest(issuer.identity, subject)
              && 0 <= depth <= 32 && 0 <= sequence && WellFormed(issuer.namespace)
              && now - CLOCK_MARGIN < ca.notAfter && now - CLOCK_MARGIN < policy.notAfter && now - CLOCK_MARGIN < issuer.notAfter
  {
    hide SpiffeRouter, DescendantTest, WellFormed;
    var g := BuildGrant(issuer, subject, scope, ca, policy, depth, sequence, id, now);
    assert issuer.namespace in g.subscribe && scope in g.publish;
  }

  // ----- enrollment -----

  datatype Desk = Desk(store: Store, invitations: Invitations, members: set<string>)

  datatype Request = Request(token: string, keys: Keys)

  /** What the router has at hand: its path and domain, what its certificate authority
      answers, its policy certificate, and a fresh grant identifier. */
  datatype Means = Means(local: Uri, domain: string, issued: Option<Issued>, signer: Option<Certificate>, grantId: string)

  /** The envelope for an invitation's child, if it can be made. */
  function Offer(s: Store, inv: Invitation, m: Means, now: Time): Result<(Envelope, Issued), EnrollError> {
    var identity := RouterIdentity(m.domain, inv.namespace);
    var scope := Parse(inv.namespace + "/**");
    var _ :- Check(identity.Path?, BadRequest);
    var _ :- Check(m.issued.Some? && m.issued.value.ca.Pem? && m.issued.value.policy.Pem?, SigningFailed);
    var _ :- Check(m.local in s.authorities, DelegationFailed);
    var _ :- Check(m.signer.Some? && scope.Parsed?, DelegationFailed);
    var issuer := s.authorities[m.local];
    var g := BuildGrant(issuer, identity.value, scope.scope, m.issued.value.ca.certificate, m.issued.value.policy.certificate,
                        inv.depth, Sequence(s.delegations, m.local), m.grantId, now);
    Ok((Sign(g, m.signer.value), m.issued.value))
  }

  /** `enroll_router`: the desk afterwards, and the use that its answer is made of. */
  function EnrollRequest(d: Desk, q: Request, m: Means, now: Time): (Desk, Result<Use, EnrollError>) {
    if q.token !in d.invitations then (d, Err(UnknownInvitation))
    else
      var inv := d.invitations[q.token];
      if inv.used.Some? then (d, if inv.used.value.keys == q.keys then Ok(inv.used.value) else Err(UsedWithOtherKeys))
      else if inv.expires <= now then (d, Err(InvitationExpired))
      else
        match Offer(d.store, inv, m, now)
        case Err(e) => (d, Err(e))
        case Ok((envelope, issued)) =>
          match Enroll(d.store, envelope, issued.ca, issued.policy, now)
          case Err(_) => (d, Err(DelegationFailed))
          case Ok(t) =>
            var use := Use(q.keys, envelope.payload.subject, envelope, issued);
            (Desk(t, d.invitations[q.token := inv.(used := Some(use))], d.members + {inv.namespace}), Ok(use))
  }

  class EnrollmentDesk {
    const registry: Registry
    var invitations: Invitations
    var members: set<string>

    constructor (registry: Registry)
      requires registry.Valid()
      ensures this.registry == registry && Now() == Desk(registry.Contents(), map[], {})
    {
      this.registry := registry;
      invitations, members := map[], {};
    }

    ghost function Now(): Desk
      reads this, registry
    {
      Desk(registry.Contents(), invitations, members)
    }

    method CreateInvitation(token: string, ownPath: string, requested: string, depth: int, hours: int, now: Time)
      returns (r: Result<Invitation, EnrollError>)
      requires registry.local in registry.authorities
      modifies this`invitations
      ensures var issuer := registry.authorities[registry.local];
              && (r.Ok? <==>
                    && issuer.state == Active && now < issuer.notAfter && 0 <= depth <= 8 && depth < issuer.depth && 1 <= hours <= 168
                    && ChildNamespace(ownPath, requested).Path? && ChildNamespace(ownPath, requested).value !in members
                    && token !in old(invitations))
              && (r.Ok? ==>
                    && NormalizePath(ownPath).Path? && NormalizePath(ownPath).value + "/" < r.value.namespace
                    && r.value.namespace == ChildNamespace(ownPath, requested).value && r.value.namespace !in members
                    && r.value.depth == depth && r.value.used.None?
                    && now < r.value.expires <= issuer.notAfter && r.value.expires <= now + 3600 * hours
                    && (r.value.expires == issuer.notAfter || r.value.expires == now + 3600 * hours))
      ensures invitations == if r.Ok? then old(invitations)[token := r.value] else old(invitations)
      ensures Now() == ApplyDesk(old(Now()), registry.local, InviteEvent(token, ownPath, requested, depth, hours, now))
    {
      if ChildNamespace(ownPath, requested).Path? {
        ChildNamespaceBelow("", ownPath, requested);
      }
      r := NewInvitation(registry.authorities[registry.local], members, ownPath, requested, depth, hours, now);
      if r.Ok? {
        if token in invitations {
          return Err(TokenTaken);
        }
        invitations := invitations[token := r.value];
      }
    }

    /** `enroll_router` on the tables themselves. */
    method EnrollRouter(q: Request, m: Means, now: Time) returns (r: Result<Use, EnrollError>)
      requires registry.Valid()
      modifies this, registry
      ensures registry.Valid()
      ensures (Now(), r) == EnrollRequest(old(Now()), q, m, now)
      ensures Now() == ApplyDesk(old(Now()), registry.local, RequestEvent(q, m, now))
    {
      hide Enroll, Offer;
      if q.token !in invitations {
        return Err(UnknownInvitation);
      }
      var inv := invitations[q.token];
      if inv.used.Some? {
        if inv.used.value.keys == q.keys {
          return Ok(inv.used.value);
        }
        return Err(UsedWithOtherKeys);
      }
      if inv.expires <= now {
        return Err(InvitationExpired);
      }
      var offer := Offer(registry.Contents(), inv, m, now);
      if offer.Err? {
        return Err(offer.error);
      }
      var (envelope, issued) := offer.value;
      var enrolled := registry.EnrollRouter(envelope, issued.ca, issued.policy, now);
      if enrolled.Err? {
        return Err(DelegationFailed);
      }
      var use := Use(q.keys, envelope.payload.subject, envelope, issued);
      invitations := invitations[q.token := inv.(used := Some(use))];
      members := members + {inv.namespace};
      return Ok(use);
    }
  }

  // ----- runs -----

  datatype DeskEvent =
    | InviteEvent(token: string, ownPath: string, requested: string, depth: int, hours: int, now: Time)
    | RequestEvent(request: Request, means: Means, now: Time)
    | StoreEvent(event: TrustStore.Event)

  function ApplyDesk(d: Desk, local: Uri, e: DeskEvent): Desk {
    match e
    case InviteEvent(token, ownPath, requested, depth, hours, now) =>
      if local !in d.store.authorities || token in d.invitations then d
      else
        (match NewInvitation(d.store.authorities[local], d.members, ownPath, requested, depth, hours, now)
         case Ok(inv) => d.(invitations := d.invitations[token := inv])
         case Err(_) => d)
    case RequestEvent(request, means, now) => EnrollRequest(d, request, means, now).0
    case StoreEvent(event) => d.(store := TrustStore.Apply(d.store, local, event))
  }

  function RunDesk(d: Desk, local: Uri, events: seq<DeskEvent>): Desk
    decreases events
  {
    if events == [] then d else RunDesk(ApplyDesk(d, local, events[0]), local, events[1..])
  }

  ghost predicate HasEnvelope(s: Store, e: Envelope) {
    exists i :: 0 <= i < |s.delegations| && s.delegations[i].envelope == e
  }

  predicate Used(d: Desk, token: string) {
    token in d.invitations && d.invitations[token].used.Some?
  }

  function UseOf(d: Desk, token: string): Use
    requires Used(d, token)
  {
    d.invitations[token].used.value
  }

  /** Every use is backed by a delegation of the store, and no two share an authority. */
  ghost predicate Backed(d: Desk) {
    && (forall t | Used(d, t) ::
          && UseOf(d, t).authority == UseOf(d, t).envelope.payload.subject
          && UseOf(d, t).authority in d.store.authorities
          && HasEnvelope(d.store, UseOf(d, t).envelope))
    && (forall t, u | Used(d, t) && Used(d, u) && t != u :: UseOf(d, t).authority != UseOf(d, u).authority)
  }

  lemma EnvelopesKept(s: Store, t: Store, e: Envelope)
    requires Extends(s, t) && HasEnvelope(s, e)
    ensures HasEnvelope(t, e)
  {}

  lemma BackedKept(d: Desk, after: Desk)
    requires Backed(d) && Extends(d.store, after.store)
    requires forall t | Used(after, t) :: Used(d, t) && UseOf(d, t) == UseOf(after, t)
    ensures Backed(after)
  {}

  lemma AuthoritiesKept(s: Store, t: Store, id: Uri)
    requires Extends(s, t) && id in s.authorities
    ensures id in t.authorities
  {}

  /** What a successful enrollment adds to the store. */
  lemma EnrollmentAdds(s: Store, e: Envelope, ca: Pem, policy: Pem, now: Time)
    requires Enroll(s, e, ca, policy, now).Ok?
    ensures var t := Enroll(s, e, ca, policy, now).value;
            && Extends(s, t) && e.payload.subject !in s.authorities && e.payload.subject in t.authorities
            && HasEnvelope(t, e)
  {
    EnrollUnfolds(s, e, ca, policy, now);
    hide Enroll, AcceptDelegation, EnvelopeGenuine;
    AcceptExtends(s, e, ca, Some(policy), now);
    AcceptChecks(s, e, ca, Some(policy), now);
    var t := Enroll(s, e, ca, policy, now).value;
    assert t.delegations[|s.delegations|].envelope == e;
  }

  lemma RequestKeepsBacked(d: Desk, q: Request, m: Means, now: Time)
    requires Backed(d)
    ensures Backed(EnrollRequest(d, q, m, now).0)
    ensures Extends(d.store, EnrollRequest(d, q, m, now).0.store)
  {
    hide Offer, Enroll, Extends, HasEnvelope;
    ExtendsReflexive(d.store);
    var (after, r) := EnrollRequest(d, q, m, now);
    if after != d {
      var (e, issued) := Offer(d.store, d.invitations[q.token], m, now).value;
      EnrollmentAdds(d.store, e, issued.ca, issued.policy, now);
      forall t | Used(after, t)
        ensures UseOf(after, t).authority == UseOf(after, t).envelope.payload.subject
        ensures UseOf(after, t).authority in after.store.authorities && HasEnvelope(after.store, UseOf(after, t).envelope)
        ensures t != q.token ==> Used(d, t) && UseOf(d, t) == UseOf(after, t)
      {
        if t != q.token {
          assert Used(d, t) && UseOf(d, t) == UseOf(after, t);
          EnvelopesKept(d.store, after.store, UseOf(d, t).envelope);
          AuthoritiesKept(d.store, after.store, UseOf(d, t).authority);
        }
      }
    }
  }

  lemma ExtendsReflexive(s: Store)
    ensures Extends(s, s)
  {}

  lemma EventKeeps(d: Desk, local: Uri, e: DeskEvent)
    requires Backed(d)
    ensures Backed(ApplyDesk(d, local, e))
    ensures forall t | Used(d, t) :: Used(ApplyDesk(d, local, e), t) && UseOf(ApplyDesk(d, local, e), t) == UseOf(d, t)
  {
    hide Extends, HasEnvelope, Enroll, Offer, NewInvitation, Backed;
    ExtendsReflexive(d.store);
    match e
    case InviteEvent(_, _, _, _, _, _) =>
      if ApplyDesk(d, local, e) != d {
        InvitationsStartUnused(d, local, e);
        BackedKept(d, ApplyDesk(d, local, e));
      }
    case RequestEvent(q, m, now) =>
      RequestKeepsBacked(d, q, m, now);
    case StoreEvent(event) =>
      ApplyExtends(d.store, local, event);
      BackedKept(d, ApplyDesk(d, local, e));
  }

  lemma InvitationsStartUnused(d: Desk, local: Uri, e: DeskEvent)
    requires e.InviteEvent?
    ensures forall t | Used(ApplyDesk(d, local, e), t) :: Used(d, t) && UseOf(d, t) == UseOf(ApplyDesk(d, local, e), t)
  {}

  /** Once used, an invitation keeps its use over every further run, and that use stays
      backed by a delegation that no other invitation shares. */
  lemma {:induction false} UsedForEver(d: Desk, local: Uri, events: seq<DeskEvent>)
    requires Backed(d)
    ensures Backed(RunDesk(d, local, events))
    ensures forall t | Used(d, t) :: Used(RunDesk(d, local, events), t) && UseOf(RunDesk(d, local, events), t) == UseOf(d, t)
    decreases events
  {
    hide Backed, ApplyDesk, UseOf, Used;
    if events != [] {
      EventKeeps(d, local, events[0]);
      UsedForEver(ApplyDesk(d, local, events[0]), local, events[1..]);
    }
  }

  /** Single use: after a request that enrolled, however much later, the same keys get the
      same answer and any other keys are refused, and neither changes anything. */
  lemma SingleUse(d: Desk, local: Uri, q: Request, m: Means, now: Time, events: seq<DeskEvent>, keys: Keys, again: Means, later: Time)
    requires Backed(d) && EnrollRequest(d, q, m, now).1.Ok?
    ensures var (after, r) := EnrollRequest(d, q, m, now);
            var much := RunDesk(after, local, events);
            EnrollRequest(much, Request(q.token, keys), again, later)
            == (much, if keys == r.value.keys then Ok(r.value) else Err(UsedWithOtherKeys))
            && r.value.keys == q.keys
  {
    RequestKeepsBacked(d, q, m, now);
    var (after, r) := EnrollRequest(d, q, m, now);
    assert Used(after, q.token) && UseOf(after, q.token) == r.value;
    UsedForEver(after, local, events);
    hide Offer, Enroll, RunDesk;
  }

  lemma OfferFacts(s: Store, inv: Invitation, m: Means, now: Time)
    requires Offer(s, inv, m, now).Ok?
    ensures m.local in s.authorities
    ensures var g := Offer(s, inv, m, now).value.0.payload;
            && RouterIdentity(m.domain, inv.namespace) == Path(g.subject)
            && Parse(inv.namespace + "/**") == Parsed(g.namespace)
            && g.issuer == s.authorities[m.local].identity && g.depth == inv.depth
            && g.sequence == Sequence(s.delegations, m.local)
    ensures var (e, issued) := Offer(s, inv, m, now).value;
            m.issued == Some(issued) && (s.authorities[m.local].identity == m.local ==> GrantAsInvited(s, inv, m, issued, e.payload, now))
  {
    hide Parse, RouterIdentity, WellFormed;
  }

  /** The grant that is offered: all roles and control actions, the child's subtree to publish and
      the issuer's to read, the invited depth, the next sequence, and a window from two minutes
      ago to the first end of the issuer and the two new certificates. */
  predicate GrantAsInvited(s: Store, inv: Invitation, m: Means, issued: Issued, g: Grant, now: Time) {
    && m.local in s.authorities && issued.ca.Pem? && issued.policy.Pem?
    && var ca, policy, issuer := issued.ca.certificate, issued.policy.certificate, s.authorities[m.local];
       && g.id == m.grantId && g.issuer == m.local && g.depth == inv.depth && g.subjectCa == Sha256(ca)
       && g.publish == [g.namespace] && g.subscribe == [issuer.namespace]
       && g.roles == [RouterCa, RouterRole, WorkloadIssuer]
       && g.control == [Topology, Status, ConfigFromParent, ManageChildren]
       && (g.sequence == 1 || exists row | row in s.delegations :: row.issuer == m.local && row.sequence + 1 == g.sequence)
       && g.notBefore == now - 120
       && g.notAfter <= issuer.notAfter && g.notAfter <= ca.notAfter && g.notAfter <= policy.notAfter
       && (g.notAfter == issuer.notAfter || g.notAfter == ca.notAfter || g.notAfter == policy.notAfter)
  }

  lemma SequenceIsAbove(rows: seq<Delegation>, issuer: Uri)
    ensures forall row | row in rows && row.issuer == issuer :: row.sequence < Sequence(rows, issuer)
  {}

  lemma EnrollFacts(s: Store, e: Envelope, ca: Pem, policy: Pem, now: Time)
    requires Enroll(s, e, ca, policy, now).Ok?
    ensures var t, g := Enroll(s, e, ca, policy, now).value, e.payload;
            && g.subject !in s.authorities && g.subject in t.authorities
            && t.authorities[g.subject].parent == Some(g.issuer)
            && t.authorities[g.subject].depth == g.depth && t.authorities[g.subject].namespace == g.namespace
            && LatestActive(t.delegations, g.subject).Some?
            && t.identities == s.identities + [IssuedIdentity(g.subject, Transport, ActiveRow), IssuedIdentity(g.subject, PolicySigner, ActiveRow)]
            && t.credentials == s.credentials + [LinkCredential(g.subject, ActiveRow)] && t.revocations == s.revocations
  {
    EnrollUnfolds(s, e, ca, policy, now);
    hide Enroll, AcceptDelegation, EnvelopeGenuine;
    AcceptChecks(s, e, ca, Some(policy), now);
    var t := Enroll(s, e, ca, policy, now).value;
    assert t.delegations == s.delegations + [NewRow(e)];
    assert NewRow(e) in t.delegations;
  }

  /** The child of a successful enrollment: what was invited, under this router, with a
      sequence above every earlier one. */
  lemma EnrolledAsInvited(d: Desk, q: Request, m: Means, now: Time)
    requires Invariant(d.store) && q.token in d.invitations && d.invitations[q.token].used.None?
    requires EnrollRequest(d, q, m, now).1.Ok?
    ensures var inv := d.invitations[q.token];
            var (after, r) := EnrollRequest(d, q, m, now);
            var child := r.value.authority;
            && RouterIdentity(m.domain, inv.namespace) == Path(child)
            && child !in d.store.authorities && child in after.store.authorities
            && after.store.authorities[child].parent == Some(m.local)
            && after.store.authorities[child].depth == inv.depth
            && Parse(inv.namespace + "/**") == Parsed(after.store.authorities[child].namespace)
            && now < inv.expires
            && LatestActive(after.store.delegations, child).Some?
            && (forall row | row in d.store.delegations && row.issuer == m.local :: row.sequence < r.value.envelope.payload.sequence)
            && r.value.keys == q.keys && m.issued == Some(r.value.issued)
            && after.invitations == d.invitations[q.token := inv.(used := Some(r.value))]
            && after.members == d.members + {inv.namespace}
            && GrantAsInvited(d.store, inv, m, r.value.issued, r.value.envelope.payload, now)
            && after.store.identities == d.store.identities + [IssuedIdentity(child, Transport, ActiveRow), IssuedIdentity(child, PolicySigner, ActiveRow)]
            && after.store.credentials == d.store.credentials + [LinkCredential(child, ActiveRow)]
            && after.store.revocations == d.store.revocations
  {
    var inv := d.invitations[q.token];
    var (e, issued) := Offer(d.store, inv, m, now).value;
    OfferFacts(d.store, inv, m, now);
    SequenceIsAbove(d.store.delegations, m.local);
    assert d.store.authorities[m.local].identity == m.local by {
      assert AuthorityRow(m.local, d.store.authorities[m.local]);
    }
    hide *;
    RequestUnfolds(d, q, m, now);
    EnrollFacts(d.store, e, issued.ca, issued.policy, now);
  }

  lemma RequestUnfolds(d: Desk, q: Request, m: Means, now: Time)
    requires q.token in d.invitations && d.invitations[q.token].used.None?
    requires EnrollRequest(d, q, m, now).1.Ok?
    ensures Offer(d.store, d.invitations[q.token], m, now).Ok? && now < d.invitations[q.token].expires
    ensures var (e, issued) := Offer(d.store, d.invitations[q.token], m, now).value;
            var t := Enroll(d.store, e, issued.ca, issued.policy, now);
            && t.Ok? && EnrollRequest(d, q, m, now).0.store == t.value
            && EnrollRequest(d, q, m, now).1.value.authority == e.payload.subject
            && EnrollRequest(d, q, m, now).1.value == Use(q.keys, e.payload.subject, e, issued)
            && EnrollRequest(d, q, m, now).0.invitations
               == d.invitations[q.token := d.invitations[q.token].(used := Some(EnrollRequest(d, q, m, now).1.value))]
            && EnrollRequest(d, q, m, now).0.members == d.members + {d.invitations[q.token].namespace}
  {
    hide Offer, Enroll;
  }

  /** Every other answer: an unknown, used or expired invitation and a refused enrollment change
      nothing at all, and are told apart. */
  lemma RefusedChangesNothing(d: Desk, q: Request, m: Means, now: Time)
    ensures var (after, r) := EnrollRequest(d, q, m, now);
            && (q.token !in d.invitations ==> r == Err(UnknownInvitation))
            && (q.token in d.invitations ==>
                  var inv := d.invitations[q.token];
                  && (inv.used.Some? ==> after == d && r == if inv.used.value.keys == q.keys then Ok(inv.used.value) else Err(UsedWithOtherKeys))
                  && (inv.used.None? && inv.expires <= now ==> r == Err(InvitationExpired)))
            && (r.Err? ==> after == d)
  {
    hide Offer, Enroll;
  }

  // ----- when an invitation enrolls -----

  /** What the router and its certificate authority have to bring. */
  predicate Equipped(s: Store, inv: Invitation, m: Means) {
    && m.local in s.authorities && m.signer.Some?
    && m.issued.Some? && m.issued.value.ca.Pem? && m.issued.value.policy.Pem?
    && RouterIdentity(m.domain, inv.namespace).Path? && Parse(inv.namespace + "/**").Parsed?
  }

  /** The issuer may delegate, and its signer is the one on record and current. */
  predicate IssuerReady(s: Store, m: Means, now: Time)
    requires m.local in s.authorities && m.signer.Some?
  {
    var issuer, signer := s.authorities[m.local], m.signer.value;
    && issuer.state == Active && !IsRevoked(s, issuer) && WellFormed(issuer.namespace)
    && issuer.policyFingerprint == Some(Sha256(signer)) && HasIdentity(signer, m.local) && signer.publicKey.P256?
    && signer.notBefore <= now < signer.notAfter
  }

  /** The child is new, properly named below the issuer, and its certificates are in order. */
  predicate ChildReady(s: Store, inv: Invitation, m: Means, child: Uri, now: Time)
    requires m.local in s.authorities && s.authorities[m.local].caCert.Pem?
    requires m.issued.Some? && m.issued.value.ca.Pem? && m.issued.value.policy.Pem?
  {
    var ca, policy, issuerCa := m.issued.value.ca.certificate, m.issued.value.policy.certificate, s.authorities[m.local].caCert.certificate;
    && child !in s.authorities && child != m.local && SpiffeRouter(m.local) && SpiffeRouter(child) && DescendantTest(m.local, child)
    && ProperCertificates(ca, policy, issuerCa, child)
    && ca.notBefore <= now < ca.notAfter && policy.notBefore <= now < policy.notAfter && now < s.authorities[m.local].notAfter
    && (forall id | id in s.authorities ::
          && s.authorities[id].caFingerprint != Sha256(ca) && s.authorities[id].policyFingerprint != Some(Sha256(policy)))
    && (forall d | d in s.delegations :: d.envelope.payload.id != m.grantId)
  }

  /** The grant is less deep than what the issuer holds, and narrower where that is a grant. */
  predicate DepthReady(s: Store, m: Means, g: Grant, now: Time)
    requires m.local in s.authorities
  {
    && 0 <= g.depth <= 32
    && match LatestActive(s.delegations, m.local)
       case Some(own) => own.envelope.signer.Pem? && EnvelopeCurrent(own.envelope, now) && GrantIsSubset(g, own.envelope.payload)
       case None => g.depth < s.authorities[m.local].depth
  }

  lemma SequenceIsNatural(s: Store, local: Uri)
    requires Invariant(s)
    ensures Sequence(s.delegations, local) >= 0
  {
    hide Invariant, HighestSequence, Edge;
    var highest := HighestSequence(s.delegations, local);
    if highest.Some? {
      var d :| d in s.delegations && d.issuer == local && d.sequence == highest.value;
      RowIsEdge(s, d);
      EdgeBounds(s.authorities, d);
    }
  }

  lemma SubtreeIsWildcard(namespace: string)
    requires Parse(namespace + "/**").Parsed?
    ensures Parse(namespace + "/**").scope.wildcard
  {
    assert namespace + "/**" == namespace + "/" + "**";
    SplitAppend(namespace, "**");
    assert "**"[1..] == "*" && "*"[1..] == "";
    assert Split("**") == ["**"];
  }

  lemma OfferExactly(s: Store, inv: Invitation, m: Means, now: Time)
    ensures Offer(s, inv, m, now).Ok? <==> Equipped(s, inv, m)
    ensures Offer(s, inv, m, now).Ok? ==>
      var child, scope := RouterIdentity(m.domain, inv.namespace).value, Parse(inv.namespace + "/**").scope;
      Offer(s, inv, m, now).value == (Built(s, inv, m, child, scope, now), m.issued.value)
  {
    hide Parse, RouterIdentity, BuildGrant;
  }

  /** An unused invitation that has not expired enrolls exactly when the router is equipped,
      the issuer and the child are ready, and the invited depth is below the issuer's. */
  lemma EnrollsExactly(d: Desk, q: Request, m: Means, now: Time)
    requires Invariant(d.store) && q.token in d.invitations
    requires d.invitations[q.token].used.None? && now < d.invitations[q.token].expires
    ensures var inv := d.invitations[q.token];
            EnrollRequest(d, q, m, now).1.Ok? <==>
            && Equipped(d.store, inv, m) && d.store.authorities[m.local].caCert.Pem?
            && IssuerReady(d.store, m, now)
            && ChildReady(d.store, inv, m, RouterIdentity(m.domain, inv.namespace).value, now)
            && DepthReady(d.store, m, Offer(d.store, inv, m, now).value.0.payload, now)
  {
    var inv := d.invitations[q.token];
    OfferExactly(d.store, inv, m, now);
    if Equipped(d.store, inv, m) {
      var (e, issued) := Offer(d.store, inv, m, now).value;
      OfferedExactly(d.store, inv, m, now);
      hide Invariant, Offer, Equipped, IssuerReady, ChildReady, DepthReady, RouterIdentity;
      assert Enroll(d.store, e, issued.ca, issued.policy, now).Ok? <==> AcceptDelegation(d.store, e, issued.ca, Some(issued.policy), now).Ok?;
    } else {
      hide Equipped, Offer;
    }
  }

  lemma OfferedExactly(s: Store, inv: Invitation, m: Means, now: Time)
    requires Invariant(s) && Equipped(s, inv, m) && Offer(s, inv, m, now).Ok?
    ensures var (e, issued) := Offer(s, inv, m, now).value;
            AcceptDelegation(s, e, issued.ca, Some(issued.policy), now).Ok? <==>
            && s.authorities[m.local].caCert.Pem?
            && IssuerReady(s, m, now) && ChildReady(s, inv, m, RouterIdentity(m.domain, inv.namespace).value, now)
            && DepthReady(s, m, e.payload, now)
  {
    var (e, issued) := Offer(s, inv, m, now).value;
    var child, scope := RouterIdentity(m.domain, inv.namespace).value, Parse(inv.namespace + "/**").scope;
    assert AuthorityRow(m.local, s.authorities[m.local]);
    OfferExactly(s, inv, m, now);
    SubtreeIsWildcard(inv.namespace);
    SequenceIsNatural(s, m.local);
    AcceptExactly(s, e, issued.ca, Some(issued.policy), now);
    hide *;
    BuiltExactly(s, inv, m, child, scope, now);
  }

  /** The signed grant that is offered to the child. */
  function Built(s: Store, inv: Invitation, m: Means, child: Uri, scope: Scope, now: Time): Envelope
    requires m.local in s.authorities && m.signer.Some?
    requires m.issued.Some? && m.issued.value.ca.Pem? && m.issued.value.policy.Pem?
  {
    Sign(BuildGrant(s.authorities[m.local], child, scope, m.issued.value.ca.certificate, m.issued.value.policy.certificate,
                    inv.depth, Sequence(s.delegations, m.local), m.grantId, now), m.signer.value)
  }

  lemma BuiltExactly(s: Store, inv: Invitation, m: Means, child: Uri, scope: Scope, now: Time)
    requires m.local in s.authorities && m.signer.Some? && AuthorityRow(m.local, s.authorities[m.local])
    requires m.issued.Some? && m.issued.value.ca.Pem? && m.issued.value.policy.Pem?
    requires WellFormed(scope) && scope.wildcard && Sequence(s.delegations, m.local) >= 0
    ensures var e, ca, policy := Built(s, inv, m, child, scope, now), m.issued.value.ca, Some(m.issued.value.policy);
            (Admissible(s, e, ca, policy) && Timely(s, e, ca, policy, now)) <==>
            IssuerReady(s, m, now) && ChildReady(s, inv, m, child, now) && DepthReady(s, m, e.payload, now)
  {
    var e, ca, policy := Built(s, inv, m, child, scope, now), m.issued.value.ca, Some(m.issued.value.policy);
    hide *;
    if Admissible(s, e, ca, policy) && Timely(s, e, ca, policy, now) {
      BuiltIsReady(s, inv, m, child, scope, now);
    }
    if IssuerReady(s, m, now) && ChildReady(s, inv, m, child, now) && DepthReady(s, m, e.payload, now) {
      ReadyIsBuilt(s, inv, m, child, scope, now);
    }
  }

  lemma BuiltIsReady(s: Store, inv: Invitation, m: Means, child: Uri, scope: Scope, now: Time)
    requires m.local in s.authorities && m.signer.Some? && AuthorityRow(m.local, s.authorities[m.local])
    requires m.issued.Some? && m.issued.value.ca.Pem? && m.issued.value.policy.Pem?
    requires WellFormed(scope) && scope.wildcard && Sequence(s.delegations, m.local) >= 0
    requires var e, ca, policy := Built(s, inv, m, child, scope, now), m.issued.value.ca, Some(m.issued.value.policy);
             Admissible(s, e, ca, policy) && Timely(s, e, ca, policy, now)
    ensures IssuerReady(s, m, now) && ChildReady(s, inv, m, child, now)
    ensures DepthReady(s, m, Built(s, inv, m, child, scope, now).payload, now)
  {
    var ca, policy := m.issued.value.ca, m.issued.value.policy;
    ChildGrantIsValid(s.authorities[m.local], child, scope, ca.certificate, policy.certificate, inv.depth,
                      Sequence(s.delegations, m.local), m.grantId, now);
    hide SpiffeRouter, DescendantTest, SignedBy, RouterCaProfile, PolicySignerProfile, ValidGrant, GrantIsSubset,
      IsRevoked, HasIdentity, LatestActive, Sequence, WellFormed;
  }

  lemma ReadyIsBuilt(s: Store, inv: Invitation, m: Means, child: Uri, scope: Scope, now: Time)
    requires m.local in s.authorities && m.signer.Some? && AuthorityRow(m.local, s.authorities[m.local])
    requires m.issued.Some? && m.issued.value.ca.Pem? && m.issued.value.policy.Pem?
    requires WellFormed(scope) && scope.wildcard && Sequence(s.delegations, m.local) >= 0
    requires IssuerReady(s, m, now) && ChildReady(s, inv, m, child, now)
    requires DepthReady(s, m, Built(s, inv, m, child, scope, now).payload, now)
    ensures var e, ca, policy := Built(s, inv, m, child, scope, now), m.issued.value.ca, Some(m.issued.value.policy);
            Admissible(s, e, ca, policy) && Timely(s, e, ca, policy, now)
  {
    ReadyIsAdmissible(s, inv, m, child, scope, now);
    hide SpiffeRouter, DescendantTest, SignedBy, RouterCaProfile, PolicySignerProfile, ValidGrant, GrantIsSubset, Admissible,
      HasIdentity, LatestActive, Sequence, WellFormed, AuthorityRow, EnvelopeGenuine;
  }

  lemma ReadyIsAdmissible(s: Store, inv: Invitation, m: Means, child: Uri, scope: Scope, now: Time)
    requires m.local in s.authorities && m.signer.Some? && AuthorityRow(m.local, s.authorities[m.local])
    requires m.issued.Some? && m.issued.value.ca.Pem? && m.issued.value.policy.Pem?
    requires WellFormed(scope) && scope.wildcard && Sequence(s.delegations, m.local) >= 0
    requires IssuerReady(s, m, now) && ChildReady(s, inv, m, child, now)
    requires DepthReady(s, m, Built(s, inv, m, child, scope, now).payload, now)
    ensures Admissible(s, Built(s, inv, m, child, scope, now), m.issued.value.ca, Some(m.issued.value.policy))
  {
    var ca, policy := m.issued.value.ca, m.issued.value.policy;
    ChildGrantIsValid(s.authorities[m.local], child, scope, ca.certificate, policy.certificate, inv.depth,
                      Sequence(s.delegations, m.local), m.grantId, now);
    SequenceIsAbove(s.delegations, m.local);
    hide SpiffeRouter, DescendantTest, SignedBy, RouterCaProfile, PolicySignerProfile, ValidGrant, GrantIsSubset,
      IsRevoked, HasIdentity, LatestActive, Sequence, WellFormed, AuthorityRow;
  }
}
