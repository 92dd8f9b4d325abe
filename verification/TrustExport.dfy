/** Exporting the proof of an authority from the store, and the round trip: what is
    exported is what the verifier accepts. */
module TrustExport {
  import opened Results
  import opened Text
  import opened Identity
  import opened Grant
  import opened TrustChain
  import opened TrustStore

  /** The identities from the root down to `id`, within a bounded number of parents. */
  function Walk(s: Store, id: Uri, parents: nat): (r: Result<seq<Uri>, TrustError>)
    requires id in s.authorities
    ensures r.Ok? ==> |r.value| >= 1 && forall x | x in r.value :: x in s.authorities
    decreases parents
  {
    match s.authorities[id].parent
    case None => Ok([id])
    case Some(parent) =>
      if parents == 0 then Err(ChainTooDeep)
      else if parent !in s.authorities then Err(MissingParent)
      else
        var above :- Walk(s, parent, parents - 1);
        Ok(above + [id])
  }

  function ExportStep(s: Store, id: Uri): Result<Step, TrustError>
    requires id in s.authorities
  {
    match LatestActive(s.delegations, id)
    case None => Err(NoActiveDelegation)
    case Some(d) => Ok(Step(d.envelope, Some(s.authorities[id].caCert), s.authorities[id].policyCert))
  }

  function ExportSteps(s: Store, ids: seq<Uri>): (r: Result<seq<Step>, TrustError>)
    requires forall id | id in ids :: id in s.authorities
    ensures r.Ok? ==> |r.value| == |ids|
    ensures r.Ok? <==> forall i | 0 <= i < |ids| :: LatestActive(s.delegations, ids[i]).Some?
  {
    if ids == [] then Ok([])
    else
      assert forall i | 0 <= i < |ids| - 1 :: ids[1..][i] == ids[i + 1];
      match ExportStep(s, ids[0])
      case Err(e) => Err(e)
      case Ok(step) =>
        match ExportSteps(s, ids[1..])
        case Err(e) =>
          assert !forall i | 0 <= i < |ids| :: LatestActive(s.delegations, ids[i]).Some? by {
            var i :| 0 <= i < |ids[1..]| && LatestActive(s.delegations, ids[1..][i]).None?;
            assert LatestActive(s.delegations, ids[i + 1]).None?;
          }
          Err(e)
        case Ok(rest) =>
          assert forall i | 0 < i < |ids| :: ids[i] == ids[1..][i - 1];
          Ok([step] + rest)
  }

  /** A path of parent links from a root downward. */
  ghost predicate Lineage(s: Store, w: seq<Uri>) {
    && |w| >= 1
    && (forall i | 0 <= i < |w| :: w[i] in s.authorities)
    && (forall i | 0 <= i < |w| - 1 :: s.authorities[w[i + 1]].parent == Some(w[i]))
  }

  lemma {:induction false} WalkIsLineage(s: Store, id: Uri, parents: nat)
    requires id in s.authorities && Walk(s, id, parents).Ok?
    ensures var w := Walk(s, id, parents).value;
            && Lineage(s, w) && w[|w| - 1] == id && s.authorities[w[0]].parent.None?
            && |w| <= parents + 1
            && (forall more: nat | more >= |w| - 1 :: Walk(s, id, more) == Ok(w))
            && (forall fewer: nat | fewer < |w| - 1 :: Walk(s, id, fewer) == Err(ChainTooDeep))
    decreases parents
  {
    if s.authorities[id].parent.Some? {
      var parent := s.authorities[id].parent.value;
      WalkIsLineage(s, parent, parents - 1);
      var above := Walk(s, parent, parents - 1).value;
      forall more: nat | more >= |above|
        ensures Walk(s, id, more) == Ok(above + [id])
      {
        assert Walk(s, parent, more - 1) == Ok(above);
      }
      forall fewer: nat | fewer < |above|
        ensures Walk(s, id, fewer) == Err(ChainTooDeep)
      {
        if fewer > 0 {
          assert Walk(s, parent, fewer - 1) == Err(ChainTooDeep);
        }
      }
    }
  }

  function Export(s: Store, id: Uri): Result<Proof, TrustError>
    requires id in s.authorities
  {
    var lineage :- Walk(s, id, MAX_CHAIN - 1);
    var steps :- ExportSteps(s, lineage[1..]);
    Ok(Proof(AnchorOf(s.authorities[lineage[0]]), steps))
  }

  // ----- the lineage of an authority -----

  /** A delegated authority sits strictly below its parent, inside the grant bounds. */
  lemma DelegatedBelowParent(s: Store, id: Uri)
    requires Invariant(s) && id in s.authorities && s.authorities[id].parent.Some?
    ensures s.authorities[id].parent.value in s.authorities
    ensures 0 <= s.authorities[id].depth <= 32
    ensures s.authorities[id].depth < s.authorities[s.authorities[id].parent.value].depth
    ensures DescendantTest(s.authorities[id].parent.value, id)
  {
    var i := DelegatedRow(s, id);
    hide Invariant, LatestActive, Edge;
    EdgeBounds(s.authorities, s.delegations[i]);
  }

  predicate ShallowRoots(s: Store) {
    forall r | r in s.authorities && s.authorities[r].parent.None? :: s.authorities[r].depth <= 32
  }

  /** The parts of the invariant that speak of depth alone. */
  ghost predicate Levelled(s: Store) {
    forall id | id in s.authorities && s.authorities[id].parent.Some? ::
      && s.authorities[id].parent.value in s.authorities
      && 0 <= s.authorities[id].depth <= 32
      && s.authorities[id].depth < s.authorities[s.authorities[id].parent.value].depth
  }

  lemma InvariantIsLevelled(s: Store)
    requires Invariant(s)
    ensures Levelled(s)
  {
    forall id | id in s.authorities && s.authorities[id].parent.Some?
      ensures s.authorities[id].parent.value in s.authorities
      ensures 0 <= s.authorities[id].depth <= 32
      ensures s.authorities[id].depth < s.authorities[s.authorities[id].parent.value].depth
    {
      DelegatedBelowParent(s, id);
    }
  }

  /** Nobody below a root holds a grant of this depth or more. */
  predicate GrantsBelow(s: Store, levels: int) {
    forall id | id in s.authorities && s.authorities[id].parent.Some? :: s.authorities[id].depth < levels
  }

  /** Parent links never cycle: every walk ends at a root, within as many levels as the
      depths of the grants allow. */
  lemma {:induction false} WalkReachesRoot(s: Store, id: Uri, parents: nat, levels: nat)
    requires Levelled(s) && GrantsBelow(s, levels) && id in s.authorities
    requires s.authorities[id].parent.Some? ==> parents >= levels - s.authorities[id].depth
    ensures Walk(s, id, parents).Ok?
    decreases parents
  {
    if s.authorities[id].parent.Some? {
      WalkReachesRoot(s, s.authorities[id].parent.value, parents - 1, levels);
    }
  }

  /** A lineage is as long as the depths of its grants allow, the root and the deepest child
      included; below 32 levels none is ever too long to export. */
  lemma LineageIsShort(s: Store, id: Uri, levels: nat)
    requires Invariant(s) && id in s.authorities && GrantsBelow(s, levels)
    ensures Walk(s, id, levels).Ok? && |Walk(s, id, levels).value| <= levels + 1
    ensures levels <= MAX_CHAIN - 1 ==> Export(s, id) != Err(ChainTooDeep)
  {
    hide Invariant;
    InvariantIsLevelled(s);
    WalkReachesRoot(s, id, levels, levels);
    WalkIsLineage(s, id, levels);
    if levels <= MAX_CHAIN - 1 {
      assert Walk(s, id, MAX_CHAIN - 1) == Walk(s, id, levels);
      StepsAreNeverTooDeep(s, Walk(s, id, levels).value[1..]);
    }
  }

  lemma {:induction false} StepsAreNeverTooDeep(s: Store, ids: seq<Uri>)
    requires forall id | id in ids :: id in s.authorities
    ensures ExportSteps(s, ids) != Err(ChainTooDeep)
  {
    if ids != [] {
      StepsAreNeverTooDeep(s, ids[1..]);
    }
  }

  lemma {:induction false} DepthDropsAlongLineage(s: Store, w: seq<Uri>, i: nat, j: nat)
    requires Levelled(s) && Lineage(s, w) && i < j < |w|
    ensures s.authorities[w[j]].depth <= s.authorities[w[i]].depth - (j - i)
    ensures w[i] != w[j]
    decreases j - i
  {
    assert s.authorities[w[j - 1 + 1]].parent == Some(w[j - 1]);
    if i < j - 1 {
      DepthDropsAlongLineage(s, w, i, j - 1);
    }
  }

  /** Export succeeds exactly for a lineage of at most 33 authorities of which none below
      the root is decommissioned. */
  lemma ExportSucceeds(s: Store, id: Uri)
    requires Invariant(s) && id in s.authorities
    ensures Walk(s, id, MAX_CHAIN).Ok?
    ensures var w := Walk(s, id, MAX_CHAIN).value;
            Export(s, id).Ok? <==> |w| <= MAX_CHAIN && forall i | 1 <= i < |w| :: !IsDecommissioned(s.authorities, w[i])
  {
    WholeLineage(s, id);
    var w := Walk(s, id, MAX_CHAIN).value;
    forall i | 1 <= i < |w|
      ensures LatestActive(s.delegations, w[i]).Some? <==> !IsDecommissioned(s.authorities, w[i])
    {
      assert s.authorities[w[i - 1 + 1]].parent == Some(w[i - 1]);
      ActiveUnlessDecommissioned(s, w[i]);
    }
    ExportNeedsActiveRows(s, id, w);
  }

  lemma ExportNeedsActiveRows(s: Store, id: Uri, w: seq<Uri>)
    requires id in s.authorities && Lineage(s, w)
    requires Walk(s, id, MAX_CHAIN - 1) == (if |w| <= MAX_CHAIN then Ok(w) else Err(ChainTooDeep))
    ensures Export(s, id).Ok?
            <==> |w| <= MAX_CHAIN && forall i | 1 <= i < |w| :: LatestActive(s.delegations, w[i]).Some?
    ensures Export(s, id).Ok? ==>
      && Export(s, id).value.anchor == AnchorOf(s.authorities[w[0]])
      && ExportSteps(s, w[1..]) == Ok(Export(s, id).value.steps)
  {}

  lemma WholeLineage(s: Store, id: Uri)
    requires Invariant(s) && id in s.authorities
    ensures Walk(s, id, MAX_CHAIN).Ok?
    ensures var w := Walk(s, id, MAX_CHAIN).value;
            && Lineage(s, w) && w[|w| - 1] == id && s.authorities[w[0]].parent.None?
            && Walk(s, id, MAX_CHAIN - 1) == (if |w| <= MAX_CHAIN then Ok(w) else Err(ChainTooDeep))
            && (ShallowRoots(s) ==> |w| <= MAX_CHAIN)
  {
    hide Invariant;
    InvariantIsLevelled(s);
    WalkReachesRoot(s, id, MAX_CHAIN, 33);
    WalkIsLineage(s, id, MAX_CHAIN);
    if ShallowRoots(s) {
      assert GrantsBelow(s, 32);
      WalkReachesRoot(s, id, MAX_CHAIN - 1, 32);
    }
  }

  lemma ActiveUnlessDecommissioned(s: Store, id: Uri)
    requires Invariant(s) && id in s.authorities && s.authorities[id].parent.Some?
    ensures LatestActive(s.delegations, id).Some? <==> !IsDecommissioned(s.authorities, id)
  {
    var i := DelegatedRow(s, id);
    hide Invariant, LatestActive, Edge;
    EdgeBounds(s.authorities, s.delegations[i]);
  }

  // ----- the round trip -----

  predicate Verifiable(s: Store, id: Uri) {
    && id in s.authorities && s.authorities[id].policyCert.Some? && s.authorities[id].policyFingerprint.Some?
    && s.authorities[id].policyCert.value.Pem? && s.authorities[id].caCert.Pem?
  }

  /** An authority as the verifier will know it once its own step has passed. */
  ghost function AsVerified(s: Store, id: Uri): Verified
    requires Verifiable(s, id)
  {
    var a := s.authorities[id];
    match LatestActive(s.delegations, id)
    case None =>
      Verified(id, a.namespace, a.caFingerprint, a.caCert, a.policyFingerprint.value, a.policyCert.value,
               a.depth, a.notAfter, None)
    case Some(d) =>
      var g := d.envelope.payload;
      Verified(id, a.namespace, a.caFingerprint, a.caCert, a.policyFingerprint.value, a.policyCert.value, a.depth,
               Min(g.notAfter, Min(a.caCert.certificate.notAfter, a.policyCert.value.certificate.notAfter)), Some(g))
  }

  /** What is left to check about an exported step: that it carries a policy signer and
      fits the size limit, that the clock is inside its windows, that nothing is revoked. */
  predicate Passable(step: Step, revoked: set<Reference>, now: Time) {
    && step.caCert.Some? && step.policyCert.Some?
    && Utf8Length(step.caCert.value.text) <= MAX_CERTIFICATE_BYTES
    && Utf8Length(step.policyCert.value.text) <= MAX_CERTIFICATE_BYTES
    && step.caCert.value.Pem? && step.policyCert.value.Pem? && step.envelope.signer.Pem?
    && StepCurrent(step, now) && StepUnrevoked(step, revoked)
  }

  predicate Fits(step: Step) {
    && step.caCert.Some? && step.policyCert.Some?
    && Utf8Length(step.caCert.value.text) <= MAX_CERTIFICATE_BYTES
    && Utf8Length(step.policyCert.value.text) <= MAX_CERTIFICATE_BYTES
  }

  /** The active row of a subject is an edge. */
  lemma RowOf(s: Store, id: Uri) returns (i: nat)
    requires Invariant(s) && LatestActive(s.delegations, id).Some?
    ensures i < |s.delegations| && LatestActive(s.delegations, id) == Some(s.delegations[i])
    ensures Edge(s.authorities, s.delegations[i]) && s.delegations[i].subject == id
    ensures id in s.authorities && AuthorityRow(id, s.authorities[id])
    ensures AuthorityRow(s.delegations[i].issuer, s.authorities[s.delegations[i].issuer])
  {
    i :| 0 <= i < |s.delegations| && s.delegations[i] == LatestActive(s.delegations, id).value;
    assert Edge(s.authorities, s.delegations[i]);
  }

  lemma EarlierRowNarrows(rows: seq<Delegation>, j: nat, i: nat)
    requires Ordered(rows) && j < |rows| && i < |rows|
    requires rows[j].subject == rows[i].issuer && rows[i].envelope.payload.issuer == rows[i].issuer
    requires rows[i].issuer != rows[i].subject
    ensures GrantIsSubset(rows[i].envelope.payload, rows[j].envelope.payload)
  {}

  /** The row of a delegated authority narrows the row its parent holds. */
  lemma NarrowsParentRow(s: Store, id: Uri) returns (d: Delegation)
    requires Invariant(s) && LatestActive(s.delegations, id).Some?
    ensures LatestActive(s.delegations, id) == Some(d)
    ensures Edge(s.authorities, d) && d.subject == id
    ensures AuthorityRow(d.issuer, s.authorities[d.issuer]) && AuthorityRow(id, s.authorities[id])
    ensures LatestActive(s.delegations, d.issuer).Some? ==>
      GrantIsSubset(d.envelope.payload, LatestActive(s.delegations, d.issuer).value.envelope.payload)
  {
    var i := RowOf(s, id);
    d := s.delegations[i];
    if LatestActive(s.delegations, d.issuer).Some? {
      var j := RowOf(s, d.issuer);
      EarlierRowNarrows(s.delegations, j, i);
    }
  }

  /** An exported step is sound for the parent it was accepted under, and leads to the
      authority it was exported for. */
  lemma EdgeIsSound(s: Store, d: Delegation)
    requires LatestActive(s.delegations, d.subject) == Some(d) && Edge(s.authorities, d)
    requires AuthorityRow(d.issuer, s.authorities[d.issuer]) && AuthorityRow(d.subject, s.authorities[d.subject])
    requires LatestActive(s.delegations, d.issuer).Some? ==>
      GrantIsSubset(d.envelope.payload, LatestActive(s.delegations, d.issuer).value.envelope.payload)
    requires Fits(ExportStep(s, d.subject).value)
    ensures Verifiable(s, d.issuer) && Verifiable(s, d.subject)
    ensures StepSound(AsVerified(s, d.issuer), ExportStep(s, d.subject).value)
    ensures SubjectOf(AsVerified(s, d.issuer), ExportStep(s, d.subject).value) == AsVerified(s, d.subject)
  {}

  /** Verifying one exported step: it passes exactly when it is passable, and then the
      verifier knows the next authority of the lineage. */
  ghost predicate StepFaithful(s: Store, parent: Uri, id: Uri, revoked: set<Reference>, now: Time) {
    && Verifiable(s, parent) && id in s.authorities && LatestActive(s.delegations, id).Some?
    && var step := ExportStep(s, id).value;
       var r := VerifyStep(AsVerified(s, parent), step, revoked, now);
       && (r.Ok? <==> Passable(step, revoked, now))
       && (r.Ok? ==> Verifiable(s, id) && r.value == AsVerified(s, id))
  }

  lemma ExportedStepIsFaithful(s: Store, parent: Uri, id: Uri, revoked: set<Reference>, now: Time)
    requires Invariant(s) && LatestActive(s.delegations, id).Some?
    requires id in s.authorities && s.authorities[id].parent == Some(parent)
    ensures StepFaithful(s, parent, id, revoked, now)
  {
    var d := NarrowsParentRow(s, id);
    var step := ExportStep(s, id).value;
    VerifyStepExact(AsVerified(s, parent), step, revoked, now);
    if Fits(step) {
      EdgeIsSound(s, d);
    }
  }

  ghost predicate AllPassable(steps: seq<Step>, revoked: set<Reference>, now: Time) {
    forall i | 0 <= i < |steps| :: Passable(steps[i], revoked, now)
  }

  lemma PassableCons(steps: seq<Step>, revoked: set<Reference>, now: Time)
    requires |steps| > 0
    ensures AllPassable(steps, revoked, now) <==> Passable(steps[0], revoked, now) && AllPassable(steps[1..], revoked, now)
  {
    hide Passable;
    assert forall i | 1 <= i < |steps| :: steps[i] == steps[1..][i - 1];
  }

  lemma StepsUnfold(s: Store, ids: seq<Uri>)
    requires |ids| > 0 && (forall id | id in ids :: id in s.authorities) && ExportSteps(s, ids).Ok?
    ensures ExportStep(s, ids[0]).Ok? && ExportSteps(s, ids[1..]).Ok?
    ensures var steps := ExportSteps(s, ids).value;
            steps[0] == ExportStep(s, ids[0]).value && steps[1..] == ExportSteps(s, ids[1..]).value
  {
    hide LatestActive;
  }

  lemma {:induction false} FoldLineage(s: Store, w: seq<Uri>, revoked: set<Reference>, now: Time)
    requires |w| >= 1 && Verifiable(s, w[0])
    requires forall i | 1 <= i < |w| :: w[i] in s.authorities && LatestActive(s.delegations, w[i]).Some?
    requires forall i | 1 <= i < |w| :: StepFaithful(s, w[i - 1], w[i], revoked, now)
    ensures forall x | x in w[1..] :: x in s.authorities
    ensures ExportSteps(s, w[1..]).Ok?
    ensures var steps := ExportSteps(s, w[1..]).value;
            var r := FoldChain(AsVerified(s, w[0]), steps, revoked, now);
            && (r.Ok? <==> AllPassable(steps, revoked, now))
            && (r.Ok? ==> Verifiable(s, w[|w| - 1]) && r.value == AsVerified(s, w[|w| - 1]))
    decreases |w|
  {
    hide VerifyStep, Passable, AsVerified, LatestActive, Verifiable, ExportStep;
    if |w| > 1 {
      var rest := w[1..];
      assert forall i | 0 <= i < |rest| :: rest[i] == w[i + 1];
      var steps := ExportSteps(s, rest).value;
      assert StepFaithful(s, w[0], w[1], revoked, now);
      StepsUnfold(s, rest);
      PassableCons(steps, revoked, now);
      hide AllPassable, ExportSteps;
      if Passable(steps[0], revoked, now) {
        FoldLineage(s, rest, revoked, now);
      }
    }
  }

  /** The round trip: a proof exported from a store in which the invariant holds is accepted
      against the local anchor exactly when it has a step, the anchor is usable and every step
      is passable; and it establishes the very authority it was exported for. */
  lemma ExportedProofVerifies(s: Store, id: Uri, revoked: set<Reference>, now: Time)
    requires Invariant(s) && id in s.authorities && Export(s, id).Ok?
    ensures var proof := Export(s, id).value;
            && proof.anchor.identity in s.authorities
            && var root := s.authorities[proof.anchor.identity];
               var r := ChainVerdict(proof, root, revoked, now);
               && (r.Ok? <==> s.authorities[id].parent.Some? && AnchorUsable(root, revoked, now)
                              && AllPassable(proof.steps, revoked, now))
               && (r.Ok? ==>
                     && r.value.identity == id
                     && r.value.namespace == s.authorities[id].namespace
                     && r.value.caFingerprint == s.authorities[id].caFingerprint
                     && r.value.depth == s.authorities[id].depth)
  {
    WholeLineage(s, id);
    var w := Walk(s, id, MAX_CHAIN).value;
    ExportNeedsActiveRows(s, id, w);
    RootIsVerifiable(s, w[0]);
    RootHasNoParent(s, id, w);
    FoldFromRoot(s, w, revoked, now);
    VerdictFromFold(s, w, Export(s, id).value, revoked, now);
  }

  lemma VerdictFromFold(s: Store, w: seq<Uri>, proof: Proof, revoked: set<Reference>, now: Time)
    requires 1 <= |w| <= MAX_CHAIN && Verifiable(s, w[0])
    requires AnchorAuthority(s.authorities[w[0]]) == Ok(AsVerified(s, w[0]))
    requires proof.anchor == AnchorOf(s.authorities[w[0]]) && |proof.steps| == |w| - 1
    ensures ChainVerdict(proof, s.authorities[w[0]], revoked, now)
            == if |w| == 1 then Err(ChainLength)
               else if AnchorUsable(s.authorities[w[0]], revoked, now)
               then FoldChain(AsVerified(s, w[0]), proof.steps, revoked, now)
               else Err(AnchorInactive)
  {}

  lemma FoldFromRoot(s: Store, w: seq<Uri>, revoked: set<Reference>, now: Time)
    requires Invariant(s) && Lineage(s, w) && Verifiable(s, w[0])
    requires forall i | 1 <= i < |w| :: LatestActive(s.delegations, w[i]).Some?
    ensures ExportSteps(s, w[1..]).Ok?
    ensures var steps := ExportSteps(s, w[1..]).value;
            var r := FoldChain(AsVerified(s, w[0]), steps, revoked, now);
            && (r.Ok? <==> AllPassable(steps, revoked, now))
            && (r.Ok? ==> Verifiable(s, w[|w| - 1]) && r.value == AsVerified(s, w[|w| - 1]))
  {
    forall i | 1 <= i < |w|
      ensures StepFaithful(s, w[i - 1], w[i], revoked, now)
    {
      assert s.authorities[w[(i - 1) + 1]].parent == Some(w[i - 1]);
      ExportedStepIsFaithful(s, w[i - 1], w[i], revoked, now);
    }
    FoldLineage(s, w, revoked, now);
  }

  lemma RootHasNoParent(s: Store, id: Uri, w: seq<Uri>)
    requires Lineage(s, w) && w[|w| - 1] == id && s.authorities[w[0]].parent.None?
    ensures |w| > 1 <==> s.authorities[id].parent.Some?
  {
    if |w| > 1 {
      assert s.authorities[w[(|w| - 2) + 1]].parent == Some(w[|w| - 2]);
    }
  }

  lemma RootIsVerifiable(s: Store, root: Uri)
    requires Invariant(s) && root in s.authorities && s.authorities[root].parent.None?
    ensures Verifiable(s, root) && s.authorities[root].identity == root
    ensures AnchorAuthority(s.authorities[root]) == Ok(AsVerified(s, root))
  {
    assert AuthorityRow(root, s.authorities[root]);
    if LatestActive(s.delegations, root).Some? {
      var i := RowOf(s, root);
    }
  }

  // ----- over runs -----

  /** The round trip in every store a router can reach from its own root. */
  lemma RoundTripInReachableStores(root: Authority, local: Uri, events: seq<Event>, id: Uri,
                                   revoked: set<Reference>, now: Time)
    requires root.parent.None? && AuthorityRow(root.identity, root)
    requires var s := Run(InitialStore(root), local, events); id in s.authorities && Export(s, id).Ok?
    ensures var s := Run(InitialStore(root), local, events);
            var proof := Export(s, id).value;
            && proof.anchor.identity in s.authorities
            && var r := ChainVerdict(proof, s.authorities[proof.anchor.identity], revoked, now);
               && (r.Ok? <==> s.authorities[id].parent.Some? && AnchorUsable(s.authorities[proof.anchor.identity], revoked, now)
                              && AllPassable(proof.steps, revoked, now))
               && (r.Ok? ==>
                     && r.value.identity == id
                     && r.value.namespace == s.authorities[id].namespace
                     && r.value.caFingerprint == s.authorities[id].caFingerprint
                     && r.value.depth == s.authorities[id].depth)
  {
    InitialInvariant(root);
    InvariantOverRuns(InitialStore(root), local, events);
    ExportedProofVerifies(Run(InitialStore(root), local, events), id, revoked, now);
  }

  lemma {:induction false} WalkIsStable(s: Store, t: Store, id: Uri, parents: nat)
    requires Extends(s, t) && id in s.authorities && Walk(s, id, parents).Ok?
    ensures Walk(t, id, parents) == Walk(s, id, parents)
    decreases parents
  {
    if s.authorities[id].parent.Some? {
      WalkIsStable(s, t, s.authorities[id].parent.value, parents - 1);
    }
  }

  /** Decommissioning cuts off a whole subtree: whatever is done afterwards, no authority
      at or below a decommissioned one can be exported again. */
  lemma CutOffForEver(s: Store, local: Uri, events: seq<Event>, id: Uri, i: nat)
    requires Invariant(s) && id in s.authorities && Walk(s, id, MAX_CHAIN).Ok?
    requires 1 <= i < |Walk(s, id, MAX_CHAIN).value|
    requires IsDecommissioned(s.authorities, Walk(s, id, MAX_CHAIN).value[i])
    ensures id in Run(s, local, events).authorities
    ensures Export(Run(s, local, events), id).Err?
  {
    var t := Run(s, local, events);
    InvariantOverRuns(s, local, events);
    RunExtends(s, local, events);
    WalkIsStable(s, t, id, MAX_CHAIN);
    ExportSucceeds(t, id);
  }

  /** Joined with the operation: once a direct child was decommissioned, neither it nor anything
      in its subtree is ever exported again. */
  lemma DecommissionCutsOff(s: Store, local: Uri, child: Uri, events: seq<Event>, id: Uri, i: nat)
    requires Invariant(s) && Decommission(s, local, child).Ok?
    requires id in s.authorities && Walk(s, id, MAX_CHAIN).Ok?
    requires 1 <= i < |Walk(s, id, MAX_CHAIN).value| && Walk(s, id, MAX_CHAIN).value[i] == child
    ensures var u := Run(Decommission(s, local, child).value, local, events);
            id in u.authorities && Export(u, id).Err?
  {
    var t := Decommission(s, local, child).value;
    hide *;
    DecommissionPreserves(s, local, child);
    DecommissionExtends(s, local, child);
    WalkIsStable(s, t, id, MAX_CHAIN);
    ExtendsKeeps(s, t, id);
    CutOffForEver(t, local, events, id, i);
  }

  lemma DecommissionExtends(s: Store, local: Uri, child: Uri)
    requires Decommission(s, local, child).Ok?
    ensures Extends(s, Decommission(s, local, child).value)
    ensures IsDecommissioned(Decommission(s, local, child).value.authorities, child)
  {
    DecommissionExactly(s, local, child);
    ApplyExtends(s, local, DecommissionEvent(child));
    hide Decommission, Extends;
  }

  lemma ExtendsKeeps(s: Store, t: Store, id: Uri)
    requires Extends(s, t) && id in s.authorities
    ensures id in t.authorities
  {}
}
