/** The trust chain that is handed out with an enrollment: it is the issuer's own chain
    with one step more, and the child's verifier accepts it. */
module EnrollmentBundle {
  import opened Results
  import opened Text
  import opened Identity
  import opened Grant
  import opened TrustChain
  import opened TrustStore
  import opened TrustExport
  import opened Enrollment

  lemma {:induction false} LatestOfOthers(rows: seq<Delegation>, d: Delegation, subject: Uri)
    requires d.subject != subject
    ensures LatestActive(rows + [d], subject) == LatestActive(rows, subject)
  {
    if rows == [] {
      assert [d][1..] == [];
    } else {
      LatestOfOthers(rows[1..], d, subject);
      assert (rows + [d])[1..] == rows[1..] + [d];
    }
  }

  /** Two stores that agree on some authorities export the same steps for them. */
  lemma {:induction false} StepsAgree(s: Store, t: Store, ids: seq<Uri>)
    requires forall id | id in ids :: id in s.authorities && id in t.authorities && t.authorities[id] == s.authorities[id]
    requires forall id | id in ids :: LatestActive(t.delegations, id) == LatestActive(s.delegations, id)
    ensures ExportSteps(t, ids) == ExportSteps(s, ids)
  {
    hide LatestActive;
    if ids != [] {
      StepsAgree(s, t, ids[1..]);
    }
  }

  lemma {:induction false} StepsAppend(t: Store, ids: seq<Uri>, id: Uri)
    requires (forall x | x in ids :: x in t.authorities) && id in t.authorities
    requires ExportSteps(t, ids).Ok? && ExportStep(t, id).Ok?
    ensures ExportSteps(t, ids + [id]) == Ok(ExportSteps(t, ids).value + [ExportStep(t, id).value])
  {
    hide LatestActive, ExportStep;
    var all := ids + [id];
    if ids == [] {
      assert all[0] == id && all[1..] == [];
      assert ExportSteps(t, all[1..]) == Ok([]);
      assert [ExportStep(t, id).value] + [] == [] + [ExportStep(t, id).value];
    } else {
      assert all[0] == ids[0] && all[1..] == ids[1..] + [id];
      StepsAppend(t, ids[1..], id);
      var step := ExportStep(t, ids[0]).value;
      var rest := ExportSteps(t, ids[1..]).value;
      assert [step] + (rest + [ExportStep(t, id).value]) == ([step] + rest) + [ExportStep(t, id).value];
    }
  }

  /** What enrolling `e.payload.subject` does to the two tables that export reads. */
  ghost predicate Enrolled(s: Store, t: Store, e: Envelope, ca: Pem, policy: Pem) {
    && e.payload.subject !in s.authorities && ca.Pem? && policy.Pem?
    && t.authorities == s.authorities[e.payload.subject := NewAuthority(e.payload, ca, Some(policy))]
    && t.delegations == s.delegations + [NewRow(e)]
  }

  lemma EnrollIsEnrolled(s: Store, e: Envelope, ca: Pem, policy: Pem, now: Time)
    requires Invariant(s) && Enroll(s, e, ca, policy, now).Ok?
    ensures Enrolled(s, Enroll(s, e, ca, policy, now).value, e, ca, policy)
    ensures Admissible(s, e, ca, Some(policy)) && Timely(s, e, ca, Some(policy), now)
    ensures Extends(s, Enroll(s, e, ca, policy, now).value)
  {
    EnrollUnfolds(s, e, ca, policy, now);
    hide Enroll, AcceptDelegation, Timely, Invariant, EnvelopeGenuine;
    AcceptChecks(s, e, ca, Some(policy), now);
    AcceptExactly(s, e, ca, Some(policy), now);
    AcceptExtends(s, e, ca, Some(policy), now);
  }

  /** The child's lineage is its issuer's with the child behind it. */
  lemma ChildLineage(s: Store, t: Store, e: Envelope, ca: Pem, policy: Pem)
    requires Enrolled(s, t, e, ca, policy) && Extends(s, t) && e.payload.issuer in s.authorities
    requires Walk(s, e.payload.issuer, MAX_CHAIN - 1).Ok?
    requires |Walk(s, e.payload.issuer, MAX_CHAIN - 1).value| < MAX_CHAIN
    ensures Walk(t, e.payload.subject, MAX_CHAIN - 1) == Ok(Walk(s, e.payload.issuer, MAX_CHAIN - 1).value + [e.payload.subject])
  {
    WalkIsLineage(s, e.payload.issuer, MAX_CHAIN - 1);
    WalkIsStable(s, t, e.payload.issuer, MAX_CHAIN - 2);
  }

  /** Exporting the child: the issuer's proof and one step more. */
  lemma ChildExport(s: Store, t: Store, e: Envelope, ca: Pem, policy: Pem)
    requires Invariant(s) && Enrolled(s, t, e, ca, policy) && Extends(s, t) && e.payload.issuer in s.authorities
    requires Export(s, e.payload.issuer).Ok? && |Export(s, e.payload.issuer).value.steps| + 1 < MAX_CHAIN
    ensures var above := Export(s, e.payload.issuer).value;
            Export(t, e.payload.subject) == Ok(Proof(above.anchor, above.steps + [Step(e, Some(ca), Some(policy))]))
  {
    hide LatestActive, Invariant, Walk, ExportSteps, Extends;
    var child := e.payload.subject;
    ChildLineage(s, t, e, ca, policy);
    var w := Walk(s, e.payload.issuer, MAX_CHAIN - 1).value;
    var v := w + [child];
    assert v[0] == w[0] && v[1..] == w[1..] + [child];
    ChildSteps(s, t, e, ca, policy, w[1..]);
  }

  lemma ChildSteps(s: Store, t: Store, e: Envelope, ca: Pem, policy: Pem, ids: seq<Uri>)
    requires Invariant(s) && Enrolled(s, t, e, ca, policy)
    requires (forall id | id in ids :: id in s.authorities) && ExportSteps(s, ids).Ok?
    ensures ExportSteps(t, ids + [e.payload.subject]) == Ok(ExportSteps(s, ids).value + [Step(e, Some(ca), Some(policy))])
  {
    hide LatestActive, Invariant, ExportSteps;
    forall id | id in ids
      ensures t.authorities[id] == s.authorities[id] && LatestActive(t.delegations, id) == LatestActive(s.delegations, id)
    {
      LatestOfOthers(s.delegations, NewRow(e), id);
    }
    StepsAgree(s, t, ids);
    LatestOfNewcomer(s, NewRow(e));
    StepsAppend(t, ids, e.payload.subject);
  }

  /** At the moment of enrollment the exported chain of the child is accepted against the
      local anchor exactly when its issuer's own chain is passable, the child's certificates
      fit the size limit, and neither is the anchor unusable nor the child revoked. */
  lemma BundleVerifies(s: Store, e: Envelope, ca: Pem, policy: Pem, revoked: set<Reference>, now: Time)
    requires Invariant(s) && Enroll(s, e, ca, policy, now).Ok? && e.payload.issuer in s.authorities
    requires Export(s, e.payload.issuer).Ok? && |Export(s, e.payload.issuer).value.steps| + 1 < MAX_CHAIN
    ensures var t := Enroll(s, e, ca, policy, now).value;
            var above := Export(s, e.payload.issuer).value;
            var step := Step(e, Some(ca), Some(policy));
            && e.payload.subject in t.authorities && Export(t, e.payload.subject).Ok?
            && above.anchor.identity in t.authorities && ca.Pem? && policy.Pem?
            && (ChainVerdict(Export(t, e.payload.subject).value, t.authorities[above.anchor.identity], revoked, now).Ok? <==>
                  && AnchorUsable(t.authorities[above.anchor.identity], revoked, now)
                  && AllPassable(above.steps, revoked, now) && Fits(step) && StepUnrevoked(step, revoked))
  {
    var t := Enroll(s, e, ca, policy, now).value;
    EnrollIsEnrolled(s, e, ca, policy, now);
    EnrollPreserves(s, e, ca, policy, now);
    ChildExport(s, t, e, ca, policy);
    ExportedProofVerifies(t, e.payload.subject, revoked, now);
    PassableOneMore(s, Export(s, e.payload.issuer).value.steps, e, ca, policy, revoked, now);
    hide Enroll, Invariant, Export, ChainVerdict, AllPassable, Extends, Admissible, Timely;
  }

  lemma PassableOneMore(s: Store, steps: seq<Step>, e: Envelope, ca: Pem, policy: Pem, revoked: set<Reference>, now: Time)
    requires Admissible(s, e, ca, Some(policy)) && Timely(s, e, ca, Some(policy), now)
    ensures var step := Step(e, Some(ca), Some(policy));
            AllPassable(steps + [step], revoked, now) <==>
            AllPassable(steps, revoked, now) && Fits(step) && StepUnrevoked(step, revoked)
  {
    var step := Step(e, Some(ca), Some(policy));
    var all := steps + [step];
    hide Admissible, Unique, EnvelopeGenuine, StepUnrevoked, Utf8Length;
    assert all[|steps|] == step;
    assert Passable(step, revoked, now) <==> Fits(step) && StepUnrevoked(step, revoked) by {
      StepIsCurrent(s, e, ca, policy, now);
    }
    hide Passable;
    if AllPassable(all, revoked, now) {
      assert forall i | 0 <= i < |steps| :: all[i] == steps[i];
    }
  }

  lemma StepIsCurrent(s: Store, e: Envelope, ca: Pem, policy: Pem, now: Time)
    requires Admissible(s, e, ca, Some(policy)) && Timely(s, e, ca, Some(policy), now)
    ensures e.signer.Pem? && ca.Pem? && policy.Pem? && StepCurrent(Step(e, Some(ca), Some(policy)), now)
  {}

  // ----- the answer to a repeated request -----

  /** `_bundle`: the chain that a use is answered with, given the children whose link secret
      is still stored. */
  function Answer(s: Store, use: Use, secrets: set<Uri>): Result<Proof, EnrollError> {
    var _ :- Check(use.authority in secrets, SecretUnavailable);
    var _ :- Check(use.authority in s.authorities && s.authorities[use.authority].parent.Some?
                   && s.authorities[use.authority].parent.value in s.authorities, ParentUnavailable);
    match Export(s, use.authority)
    case Ok(proof) => Ok(proof)
    case Err(_) => Err(ChainUnavailable)
  }

  lemma UsedHasParent(d: Desk, token: string)
    requires Backed(d) && Invariant(d.store) && Used(d, token)
    ensures var child := UseOf(d, token).authority;
            && child in d.store.authorities && d.store.authorities[child].parent.Some?
            && d.store.authorities[child].parent.value in d.store.authorities
  {
    var use := UseOf(d, token);
    var i :| 0 <= i < |d.store.delegations| && d.store.delegations[i].envelope == use.envelope;
    assert Edge(d.store.authorities, d.store.delegations[i]);
  }

  /** A used invitation is answered exactly while the link secret is stored, the lineage is
      short enough to export and nobody in it below the root is decommissioned. */
  lemma AnsweredExactly(d: Desk, token: string, secrets: set<Uri>)
    requires Backed(d) && Invariant(d.store) && Used(d, token)
    ensures var child := UseOf(d, token).authority;
            && child in d.store.authorities && Walk(d.store, child, MAX_CHAIN).Ok?
            && var w := Walk(d.store, child, MAX_CHAIN).value;
               (Answer(d.store, UseOf(d, token), secrets).Ok? <==>
                 child in secrets && |w| <= MAX_CHAIN && forall i | 1 <= i < |w| :: !IsDecommissioned(d.store.authorities, w[i]))
  {
    UsedHasParent(d, token);
    hide Backed, Invariant, Walk, Export;
    ExportSucceeds(d.store, UseOf(d, token).authority);
  }

  /** `enroll_router` with its answer: the desk afterwards, and the chain that is handed out. */
  function Respond(d: Desk, q: Request, m: Means, secrets: set<Uri>, now: Time): (Desk, Result<Proof, EnrollError>) {
    var (after, r) := EnrollRequest(d, q, m, now);
    match r
    case Err(e) => (after, Err(e))
    case Ok(use) => (after, Answer(after.store, use, secrets))
  }

  lemma RequestKeepsInvariant(d: Desk, q: Request, m: Means, now: Time)
    requires Invariant(d.store)
    ensures Invariant(EnrollRequest(d, q, m, now).0.store)
  {
    hide Invariant, Enroll;
    if EnrollRequest(d, q, m, now).0 != d {
      var (e, issued) := Offer(d.store, d.invitations[q.token], m, now).value;
      EnrollPreserves(d.store, e, issued.ca, issued.policy, now);
    }
  }

  lemma DeskKeepsInvariant(d: Desk, local: Uri, e: DeskEvent)
    requires Invariant(d.store)
    ensures Invariant(ApplyDesk(d, local, e).store)
  {
    hide Invariant, EnrollRequest;
    match e
    case InviteEvent(_, _, _, _, _, _) =>
    case RequestEvent(q, m, now) => RequestKeepsInvariant(d, q, m, now);
    case StoreEvent(event) => ApplyPreserves(d.store, local, event);
  }

  lemma {:induction false} RunKeepsInvariant(d: Desk, local: Uri, events: seq<DeskEvent>)
    requires Invariant(d.store)
    ensures Invariant(RunDesk(d, local, events).store)
    decreases events
  {
    hide Invariant, ApplyDesk;
    if events != [] {
      DeskKeepsInvariant(d, local, events[0]);
      RunKeepsInvariant(ApplyDesk(d, local, events[0]), local, events[1..]);
    }
  }

  /** Single use, as the child sees it: once a request was answered by enrolling, every later
      request with the same keys gets the chain of that enrollment, exactly while the link
      secret is stored and its lineage can be exported; other keys are refused; and nothing
      changes either way. */
  lemma RepeatIsAnswered(d: Desk, local: Uri, q: Request, m: Means, now: Time, events: seq<DeskEvent>,
                         keys: Keys, again: Means, secrets: set<Uri>, later: Time)
    requires Backed(d) && Invariant(d.store) && EnrollRequest(d, q, m, now).1.Ok?
    ensures var (after, r) := EnrollRequest(d, q, m, now);
            var much, child := RunDesk(after, local, events), r.value.authority;
            var (last, answer) := Respond(much, Request(q.token, keys), again, secrets, later);
            && last == much && child in much.store.authorities && Walk(much.store, child, MAX_CHAIN).Ok?
            && (keys != q.keys ==> answer == Err(UsedWithOtherKeys))
            && (keys == q.keys ==>
                  var w := Walk(much.store, child, MAX_CHAIN).value;
                  && (answer.Ok? <==> child in secrets && |w| <= MAX_CHAIN
                                      && forall i | 1 <= i < |w| :: !IsDecommissioned(much.store.authorities, w[i]))
                  && (answer.Ok? ==> Ok(answer.value) == Export(much.store, child)))
  {
    hide Invariant, Backed, RunDesk, Walk, Export;
    var (after, r) := EnrollRequest(d, q, m, now);
    SingleUse(d, local, q, m, now, events, keys, again, later);
    RequestKeepsInvariant(d, q, m, now);
    RunKeepsInvariant(after, local, events);
    RequestKeepsBacked(d, q, m, now);
    UsedForEver(after, local, events);
    var much := RunDesk(after, local, events);
    assert Used(after, q.token) && UseOf(after, q.token) == r.value;
    AnsweredExactly(much, q.token, secrets);
  }

  // ----- how deep enrollment goes -----

  const MAX_INVITED := 8

  /** Nobody below a root holds a grant deeper than an invitation can offer. */
  predicate Modest(d: Desk) {
    GrantsBelow(d.store, MAX_INVITED + 1) && forall t | t in d.invitations :: d.invitations[t].depth <= MAX_INVITED
  }

  /** What reaches the store by another way than an invitation, such as the chain that leads
      to this router, was invited elsewhere. */
  predicate Invited(e: DeskEvent) {
    match e
    case StoreEvent(AcceptEvent(envelope, _, _, _)) => envelope.payload.depth <= MAX_INVITED
    case StoreEvent(EnrollEvent(envelope, _, _, _)) => envelope.payload.depth <= MAX_INVITED
    case _ => true
  }

  lemma AcceptanceIsModest(s: Store, e: Envelope, ca: Pem, policy: Option<Pem>, now: Time)
    requires GrantsBelow(s, MAX_INVITED + 1) && e.payload.depth <= MAX_INVITED && AcceptDelegation(s, e, ca, policy, now).Ok?
    ensures GrantsBelow(AcceptDelegation(s, e, ca, policy, now).value, MAX_INVITED + 1)
  {
    AcceptChecks(s, e, ca, policy, now);
    hide AcceptDelegation, Admissible;
  }

  lemma EventIsModest(d: Desk, local: Uri, e: DeskEvent)
    requires Modest(d) && Invited(e)
    ensures Modest(ApplyDesk(d, local, e))
  {
    hide AcceptDelegation, RouterIdentity, NormalizePath;
    match e
    case InviteEvent(_, _, _, _, _, _) =>
    case RequestEvent(q, m, now) =>
      if EnrollRequest(d, q, m, now).0 != d {
        var (envelope, issued) := Offer(d.store, d.invitations[q.token], m, now).value;
        AcceptanceIsModest(d.store, envelope, issued.ca, Some(issued.policy), now);
      }
    case StoreEvent(AcceptEvent(envelope, ca, policy, now)) =>
      if AcceptDelegation(d.store, envelope, ca, policy, now).Ok? {
        AcceptanceIsModest(d.store, envelope, ca, policy, now);
      }
    case StoreEvent(EnrollEvent(envelope, ca, policy, now)) =>
      if AcceptDelegation(d.store, envelope, ca, Some(policy), now).Ok? {
        AcceptanceIsModest(d.store, envelope, ca, Some(policy), now);
      }
    case StoreEvent(_) =>
  }

  lemma {:induction false} RunIsModest(d: Desk, local: Uri, events: seq<DeskEvent>)
    requires Modest(d) && forall i | 0 <= i < |events| :: Invited(events[i])
    ensures Modest(RunDesk(d, local, events))
    decreases events
  {
    hide Modest, Invited, ApplyDesk;
    if events != [] {
      EventIsModest(d, local, events[0]);
      RunIsModest(ApplyDesk(d, local, events[0]), local, events[1..]);
    }
  }

  /** Where every grant was invited, no lineage has more than ten authorities, however deep the
      root may go, and no export is refused for its length. */
  lemma InvitedLineagesAreShort(d: Desk, local: Uri, events: seq<DeskEvent>, id: Uri)
    requires Invariant(d.store) && Modest(d) && forall i | 0 <= i < |events| :: Invited(events[i])
    requires id in RunDesk(d, local, events).store.authorities
    ensures var s := RunDesk(d, local, events).store;
            && Walk(s, id, MAX_CHAIN).Ok? && |Walk(s, id, MAX_CHAIN).value| <= MAX_INVITED + 2
            && Export(s, id) != Err(ChainTooDeep)
  {
    hide Invariant, RunDesk, Walk, Export, Invited;
    var s := RunDesk(d, local, events).store;
    RunKeepsInvariant(d, local, events);
    RunIsModest(d, local, events);
    LineageIsShort(s, id, MAX_INVITED + 1);
    WalkIsLineage(s, id, MAX_INVITED + 1);
    assert Walk(s, id, MAX_CHAIN) == Walk(s, id, MAX_INVITED + 1);
  }
}
