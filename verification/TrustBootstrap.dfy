/** How a child router fills its empty store: from the trust chain that it was handed, step
    by step below the chain's anchor. */
module TrustBootstrap {
  import opened Results
  import opened Identity
  import opened Grant
  import opened TrustChain
  import opened TrustStore
  import opened TrustRegistry

  /** The loop over the steps: authorities that are known are left alone. */
  function Bootstrap(s: Store, steps: seq<Step>, now: Time): Result<Store, TrustError>
    decreases steps
  {
    if steps == [] then Ok(s)
    else if steps[0].caCert.None? then Err(InvalidCertificate)
    else if steps[0].envelope.payload.subject in s.authorities then Bootstrap(s, steps[1..], now)
    else
      var t :- AcceptDelegation(s, steps[0].envelope, steps[0].caCert.value, steps[0].policyCert, now);
      Bootstrap(t, steps[1..], now)
  }

  /** One database transaction: when a step is refused, nothing of it stays. */
  method AcceptSteps(registry: Registry, steps: seq<Step>, now: Time) returns (error: Option<TrustError>)
    requires registry.Valid()
    modifies registry
    ensures registry.Valid()
    ensures match Bootstrap(old(registry.Contents()), steps, now)
            case Ok(t) => error.None? && registry.Contents() == t
            case Err(e) => error == Some(e) && registry.Contents() == old(registry.Contents())
  {
    hide AcceptDelegation, Invariant;
    var saved := registry.Contents();
    var i := 0;
    while i < |steps|
      invariant 0 <= i <= |steps| && registry.Valid()
      invariant Bootstrap(registry.Contents(), steps[i..], now) == Bootstrap(old(registry.Contents()), steps, now)
    {
      assert steps[i..][1..] == steps[i + 1..];
      var step := steps[i];
      if step.caCert.None? {
        registry.Rollback(saved);
        return Some(InvalidCertificate);
      }
      if step.envelope.payload.subject !in registry.authorities {
        var accepted := registry.Accept(step.envelope, step.caCert.value, step.policyCert, now);
        if accepted.Err? {
          registry.Rollback(saved);
          return Some(accepted.error);
        }
      }
      i := i + 1;
    }
    return None;
  }

  /** A bootstrap succeeds exactly when no step is refused in its turn, and then it keeps all that
      was there and knows the subject of every step. */
  lemma {:induction false} BootstrapExactly(s: Store, steps: seq<Step>, now: Time)
    ensures Bootstrap(s, steps, now).Ok? <==> forall i | 0 <= i < |steps| :: Bootstrap(s, steps[..i], now).Ok? ==>
              TakesStep(Bootstrap(s, steps[..i], now).value, steps[i], now)
    ensures Bootstrap(s, steps, now).Ok? ==>
              && Extends(s, Bootstrap(s, steps, now).value)
              && forall i | 0 <= i < |steps| :: steps[i].envelope.payload.subject in Bootstrap(s, steps, now).value.authorities
    decreases steps
  {
    hide AcceptDelegation, Extends;
    ExtendsItself(s);
    if steps != [] {
      assert steps[..0] == [];
      var rest := steps[1..];
      if steps[0].caCert.Some? {
        var child := steps[0].envelope.payload.subject;
        var next := if child in s.authorities then Ok(s) else AcceptDelegation(s, steps[0].envelope, steps[0].caCert.value, steps[0].policyCert, now);
        if next.Ok? {
          var t := next.value;
          StepExtends(s, steps[0], now, t);
          BootstrapExactly(t, rest, now);
          forall i | 0 <= i < |rest|
            ensures Bootstrap(s, steps[..i + 1], now) == Bootstrap(t, rest[..i], now) && steps[i + 1] == rest[i]
          {
            assert steps[..i + 1][1..] == rest[..i];
          }
          Rearranged(s, t, steps, now);
          if Bootstrap(t, rest, now).Ok? {
            ExtendsTransitive(s, t, Bootstrap(t, rest, now).value);
            KnownStays(t, Bootstrap(t, rest, now).value, child);
          }
        }
      }
    }
  }

  /** A step that is no obstacle: complete, and either known or acceptable. */
  predicate TakesStep(s: Store, step: Step, now: Time) {
    step.caCert.Some? && (step.envelope.payload.subject in s.authorities
                          || AcceptDelegation(s, step.envelope, step.caCert.value, step.policyCert, now).Ok?)
  }

  lemma Rearranged(s: Store, t: Store, steps: seq<Step>, now: Time)
    requires steps != [] && TakesStep(s, steps[0], now) && Bootstrap(s, [], now) == Ok(s) && steps[..0] == []
    requires forall i | 0 <= i < |steps| - 1 ::
               Bootstrap(s, steps[..i + 1], now) == Bootstrap(t, steps[1..][..i], now) && steps[i + 1] == steps[1..][i]
    ensures (forall i | 0 <= i < |steps| :: Bootstrap(s, steps[..i], now).Ok? ==> TakesStep(Bootstrap(s, steps[..i], now).value, steps[i], now))
            <==> forall i | 0 <= i < |steps[1..]| :: Bootstrap(t, steps[1..][..i], now).Ok? ==>
                   TakesStep(Bootstrap(t, steps[1..][..i], now).value, steps[1..][i], now)
  {
    hide TakesStep, Bootstrap;
    if forall i | 0 <= i < |steps| :: Bootstrap(s, steps[..i], now).Ok? ==> TakesStep(Bootstrap(s, steps[..i], now).value, steps[i], now) {
      forall i | 0 <= i < |steps[1..]|
        ensures Bootstrap(t, steps[1..][..i], now).Ok? ==> TakesStep(Bootstrap(t, steps[1..][..i], now).value, steps[1..][i], now)
      {
        assert Bootstrap(s, steps[..i + 1], now) == Bootstrap(t, steps[1..][..i], now);
      }
    } else {
      var i :| 0 <= i < |steps| && Bootstrap(s, steps[..i], now).Ok? && !TakesStep(Bootstrap(s, steps[..i], now).value, steps[i], now);
      assert i > 0;
      var j := i - 1;
      assert Bootstrap(s, steps[..j + 1], now) == Bootstrap(t, steps[1..][..j], now);
    }
  }

  lemma ExtendsItself(s: Store)
    ensures Extends(s, s)
  {}

  lemma StepExtends(s: Store, step: Step, now: Time, t: Store)
    requires step.caCert.Some?
    requires if step.envelope.payload.subject in s.authorities then t == s
             else AcceptDelegation(s, step.envelope, step.caCert.value, step.policyCert, now) == Ok(t)
    ensures Extends(s, t) && step.envelope.payload.subject in t.authorities
  {
    hide AcceptDelegation, Extends;
    ExtendsItself(s);
    if step.envelope.payload.subject !in s.authorities {
      AcceptExtends(s, step.envelope, step.caCert.value, step.policyCert, now);
      AcceptChecks(s, step.envelope, step.caCert.value, step.policyCert, now);
    }
  }

  lemma KnownStays(s: Store, t: Store, id: Uri)
    requires Extends(s, t) && id in s.authorities
    ensures id in t.authorities
  {}

  // ----- unique rows -----

  function CaPrint(step: Step): Option<Fingerprint> {
    if step.caCert.Some? && step.caCert.value.Pem? then Some(Sha256(step.caCert.value.certificate)) else None
  }

  function PolicyPrint(step: Step): Option<Fingerprint> {
    if step.policyCert.Some? && step.policyCert.value.Pem? then Some(Sha256(step.policyCert.value.certificate)) else None
  }

  /** A step would add rows that the tables do not have yet. */
  predicate NewTo(s: Store, step: Step) {
    && step.envelope.payload.subject !in s.authorities
    && (forall id | id in s.authorities ::
          Some(s.authorities[id].caFingerprint) != CaPrint(step) && s.authorities[id].policyFingerprint != PolicyPrint(step))
    && (forall d | d in s.delegations :: d.envelope.payload.id != step.envelope.payload.id)
  }

  predicate Differ(a: Step, b: Step) {
    && a.envelope.payload.subject != b.envelope.payload.subject
    && a.envelope.payload.id != b.envelope.payload.id
    && CaPrint(a) != CaPrint(b) && PolicyPrint(a) != PolicyPrint(b)
  }

  predicate UniqueSteps(s: Store, steps: seq<Step>) {
    steps != [] ==>
      && NewTo(s, steps[0]) && (forall i | 0 < i < |steps| :: Differ(steps[0], steps[i]))
      && UniqueSteps(s, steps[1..])
  }

  // ----- the chain is accepted -----

  /** The store knows an authority just as the verifier does after the steps so far. */
  ghost predicate Knows(s: Store, v: Verified, now: Time) {
    && Invariant(s) && s.revocations == [] && v.identity in s.authorities
    && (var a := s.authorities[v.identity];
        && a.state == Active && a.caCert == v.caCert && a.policyFingerprint == Some(v.policyFingerprint)
        && a.depth == v.depth && a.namespace == v.namespace)
    && HighestSequence(s.delegations, v.identity).None?
    && (match LatestActive(s.delegations, v.identity)
        case None => v.grant.None?
        case Some(d) => v.grant == Some(d.envelope.payload) && d.envelope.signer.Pem? && EnvelopeCurrent(d.envelope, now))
  }

  lemma StepIsAccepted(s: Store, v: Verified, step: Step, revoked: set<Reference>, now: Time)
    requires Knows(s, v, now) && NewTo(s, step) && VerifyStep(v, step, revoked, now).Ok?
    ensures step.caCert.Some? && AcceptDelegation(s, step.envelope, step.caCert.value, step.policyCert, now).Ok?
    ensures Knows(AcceptDelegation(s, step.envelope, step.caCert.value, step.policyCert, now).value,
                  VerifyStep(v, step, revoked, now).value, now)
  {
    VerifyStepExact(v, step, revoked, now);
    var e, ca := step.envelope, step.caCert.value;
    StepIsAdmissible(s, v, step, now);
    AcceptExactly(s, e, ca, step.policyCert, now);
    AcceptChecks(s, e, ca, step.policyCert, now);
    AcceptPreserves(s, e, ca, step.policyCert, now);
    hide VerifyStep, AcceptDelegation, Admissible, Timely;
    NowKnown(s, v, step, now, AcceptDelegation(s, e, ca, step.policyCert, now).value);
  }

  lemma StepIsAdmissible(s: Store, v: Verified, step: Step, now: Time)
    requires Knows(s, v, now) && NewTo(s, step) && StepSound(v, step) && StepCurrent(step, now)
    ensures Admissible(s, step.envelope, step.caCert.value, step.policyCert)
    ensures Timely(s, step.envelope, step.caCert.value, step.policyCert, now)
  {
    hide Invariant, ValidGrant, GrantIsSubset, SignedBy, RouterCaProfile, PolicySignerProfile, HasIdentity;
  }

  lemma NowKnown(s: Store, v: Verified, step: Step, now: Time, t: Store)
    requires Knows(s, v, now) && NewTo(s, step) && StepSound(v, step) && StepCurrent(step, now) && Invariant(t)
    requires t == s.(authorities := s.authorities[step.envelope.payload.subject := NewAuthority(step.envelope.payload, step.caCert.value, step.policyCert)],
                     delegations := s.delegations + [NewRow(step.envelope)])
    ensures Knows(t, SubjectOf(v, step), now)
  {
    var child := step.envelope.payload.subject;
    LatestOfNewcomer(s, NewRow(step.envelope));
    hide Invariant, EnvelopeGenuine, ValidGrant, GrantIsSubset, SignedBy, RouterCaProfile, PolicySignerProfile, LatestActive, HighestSequence;
    NewcomerIssuedNothing(s, NewRow(step.envelope), child);
  }

  lemma NewcomerIssuedNothing(s: Store, d: Delegation, child: Uri)
    requires Invariant(s) && child !in s.authorities && d.issuer in s.authorities
    ensures HighestSequence(s.delegations + [d], child).None?
  {
    IssuersAreKnown(s);
    hide Invariant;
    var rows := s.delegations + [d];
    assert forall row | row in rows :: row in s.delegations || row == d;
  }

  lemma IssuersAreKnown(s: Store)
    requires Invariant(s)
    ensures forall d | d in s.delegations :: d.issuer in s.authorities
  {
    hide Invariant;
    forall d | d in s.delegations
      ensures d.issuer in s.authorities
    {
      RowIsEdge(s, d);
    }
  }

  lemma {:induction false} StillUnique(s: Store, t: Store, step: Step, steps: seq<Step>)
    requires UniqueSteps(s, steps) && (forall i | 0 <= i < |steps| :: Differ(step, steps[i]))
    requires step.caCert.Some? && step.caCert.value.Pem? && (step.policyCert.Some? ==> step.policyCert.value.Pem?)
    requires t.authorities == s.authorities[step.envelope.payload.subject := NewAuthority(step.envelope.payload, step.caCert.value, step.policyCert)]
    requires t.delegations == s.delegations + [NewRow(step.envelope)]
    ensures UniqueSteps(t, steps)
  {
    if steps != [] {
      assert Differ(step, steps[0]);
      assert forall i | 0 <= i < |steps| - 1 :: steps[1..][i] == steps[i + 1];
      StillUnique(s, t, step, steps[1..]);
    }
  }

  lemma {:induction false} StepsAreAccepted(s: Store, v: Verified, steps: seq<Step>, revoked: set<Reference>, now: Time)
    requires Knows(s, v, now) && UniqueSteps(s, steps) && FoldChain(v, steps, revoked, now).Ok?
    ensures Bootstrap(s, steps, now).Ok?
    ensures Knows(Bootstrap(s, steps, now).value, FoldChain(v, steps, revoked, now).value, now)
    decreases steps
  {
    hide Knows, AcceptDelegation, VerifyStep, NewTo, Differ, UniqueSteps;
    if steps != [] {
      var step, rest := steps[0], steps[1..];
      UniqueHead(s, steps);
      StepIsAccepted(s, v, step, revoked, now);
      var t := AcceptDelegation(s, step.envelope, step.caCert.value, step.policyCert, now).value;
      UniqueAfter(s, step, rest, now);
      StepsAreAccepted(t, VerifyStep(v, step, revoked, now).value, rest, revoked, now);
    }
  }

  lemma UniqueHead(s: Store, steps: seq<Step>)
    requires UniqueSteps(s, steps) && steps != []
    ensures NewTo(s, steps[0]) && steps[0].envelope.payload.subject !in s.authorities && UniqueSteps(s, steps[1..])
    ensures forall i | 0 <= i < |steps[1..]| :: Differ(steps[0], steps[1..][i])
  {
    hide Differ;
    assert forall i | 0 <= i < |steps| - 1 :: steps[1..][i] == steps[i + 1];
  }

  lemma UniqueAfter(s: Store, step: Step, rest: seq<Step>, now: Time)
    requires step.caCert.Some? && AcceptDelegation(s, step.envelope, step.caCert.value, step.policyCert, now).Ok?
    requires UniqueSteps(s, rest) && forall i | 0 <= i < |rest| :: Differ(step, rest[i])
    ensures UniqueSteps(AcceptDelegation(s, step.envelope, step.caCert.value, step.policyCert, now).value, rest)
  {
    hide UniqueSteps, Differ;
    AcceptChecks(s, step.envelope, step.caCert.value, step.policyCert, now);
    AcceptedPems(s, step.envelope, step.caCert.value, step.policyCert);
    hide AcceptDelegation, Admissible;
    StillUnique(s, AcceptDelegation(s, step.envelope, step.caCert.value, step.policyCert, now).value, step, rest);
  }

  lemma AcceptedPems(s: Store, e: Envelope, ca: Pem, policy: Option<Pem>)
    requires Admissible(s, e, ca, policy)
    ensures ca.Pem? && (policy.Some? ==> policy.value.Pem?)
  {}

  /** A chain that verifies against an anchor is accepted step by step into a store that holds
      only the anchor, given that its rows are unique; and the store then knows the authority
      that the chain establishes. */
  lemma ChainBootstraps(proof: Proof, anchor: Authority, revoked: set<Reference>, now: Time)
    requires ChainVerdict(proof, anchor, revoked, now).Ok?
    requires anchor.parent.None? && AuthorityRow(anchor.identity, anchor) && UniqueSteps(InitialStore(anchor), proof.steps)
    ensures var r := Bootstrap(InitialStore(anchor), proof.steps, now);
            r.Ok? && Knows(r.value, ChainVerdict(proof, anchor, revoked, now).value, now)
  {
    InitialInvariant(anchor);
    var issuer := AnchorAuthority(anchor).value;
    assert Knows(InitialStore(anchor), issuer, now);
    hide Knows, UniqueSteps, VerifyStep;
    StepsAreAccepted(InitialStore(anchor), issuer, proof.steps, revoked, now);
  }
}
