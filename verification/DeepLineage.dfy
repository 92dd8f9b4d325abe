/** A root whose certificate allows more than 32 levels can reach a lineage of 34
    authorities, which the export of its last member then refuses. */
module DeepLineage {
  import opened Results
  import opened Text
  import opened KeyScope
  import opened Identity
  import opened Grant
  import opened TrustChain
  import opened TrustStore
  import opened TrustExport
  import opened TrustBootstrap

  const NOW: Time := 50
  const END: Time := 100

  // ----- one authority a level -----

  function PathAt(k: nat): (path: string)
    ensures |path| == 2 * k + 1 && path[0] == 'r' && path[|path| - 1] == 'r'
    ensures forall c | c in path :: c == 'r' || c == '/'
  {
    if k == 0 then "r" else PathAt(k - 1) + "/r"
  }

  function IdAt(k: nat): Uri {
    "spiffe://" + "d" + "/router/" + PathAt(k)
  }

  function ScopeAt(k: nat): Scope {
    Scope(seq(k + 1, _ => "r"), true)
  }

  function Above(k: nat): nat {
    if k == 0 then 0 else k - 1
  }

  function CaKey(k: nat): PublicKey {
    P256(2 * k)
  }

  function PolicyKey(k: nat): PublicKey {
    P256(2 * k + 1)
  }

  function CaAt(k: nat): Certificate {
    Certificate(k, PathAt(k), PathAt(Above(k)), CaKey(k), CaKey(Above(k)), 0, END,
                Some(BasicConstraints(true, Some(0))), Some(KeyUsage(false, true)), None, [])
  }

  function PolicyAt(k: nat): Certificate {
    Certificate(k, "", PathAt(Above(k)), PolicyKey(k), CaKey(Above(k)), 0, END,
                Some(BasicConstraints(false, None)), Some(KeyUsage(true, false)), Some(true), [IdAt(k)])
  }

  function GrantAt(k: nat): Grant
    requires k > 0
  {
    Grant(PathAt(k), IdAt(k - 1), Sha256(CaAt(k)), IdAt(k), ScopeAt(k), [RouterCa], [], [], [], 33 - k, k, 0, END)
  }

  function EnvelopeAt(k: nat): Envelope
    requires k > 0
  {
    Envelope(GrantAt(k), GrantSignature(PolicyKey(k - 1), GrantAt(k)), Pem("", PolicyAt(k - 1)), Sha256(PolicyAt(k - 1)))
  }

  function StepAt(k: nat): Step
    requires k > 0
  {
    Step(EnvelopeAt(k), Some(Pem("", CaAt(k))), Some(Pem("", PolicyAt(k))))
  }

  function Root(depth: int): Authority {
    Authority(IdAt(0), ScopeAt(0), Sha256(CaAt(0)), Pem("", CaAt(0)), Some(Sha256(PolicyAt(0))), Some(Pem("", PolicyAt(0))),
              None, depth, Active, END)
  }

  function VerifiedAt(depth: int, k: nat): Verified {
    Verified(IdAt(k), ScopeAt(k), Sha256(CaAt(k)), Pem("", CaAt(k)), Sha256(PolicyAt(k)), Pem("", PolicyAt(k)),
             if k == 0 then depth else 33 - k, END, if k == 0 then None else Some(GrantAt(k)))
  }

  /** The store after `k` levels were accepted. */
  function Stage(depth: int, k: nat): Store {
    if k == 0 then InitialStore(Root(depth))
    else
      var s := Stage(depth, k - 1);
      s.(authorities := s.authorities[IdAt(k) := NewAuthority(GrantAt(k), Pem("", CaAt(k)), Some(Pem("", PolicyAt(k))))],
         delegations := s.delegations + [NewRow(EnvelopeAt(k))])
  }

  function Acceptance(k: nat): Event
    requires k > 0
  {
    AcceptEvent(EnvelopeAt(k), Pem("", CaAt(k)), Some(Pem("", PolicyAt(k))), NOW)
  }

  function AcceptancesFrom(k: nat): seq<Event>
    requires k <= 33
    decreases 33 - k
  {
    if k == 33 then [] else [Acceptance(k + 1)] + AcceptancesFrom(k + 1)
  }

  // ----- every grant is in order -----

  lemma IdsDiffer(j: nat, k: nat)
    ensures (IdAt(j) == IdAt(k) <==> j == k) && (PathAt(j) == PathAt(k) <==> j == k)
  {
    assert |IdAt(j)| == 18 + |PathAt(j)| && |IdAt(k)| == 18 + |PathAt(k)|;
  }

  lemma NextBelow(k: nat)
    ensures DescendantTest(IdAt(k), IdAt(k + 1)) && IdAt(k) != IdAt(k + 1) && "spiffe://" <= IdAt(k)
  {
    IdsDiffer(k, k + 1);
    var id := IdAt(k);
    assert id[|id| - 1] == PathAt(k)[|PathAt(k)| - 1];
    NoTrailingSlash(id);
    assert IdAt(k + 1) == id + "/" + "r";
  }

  lemma ProperId(k: nat)
    requires k <= 33
    ensures SpiffeRouter(IdAt(k))
  {
    assert DomainName("d") by {
      LowerLetter('d');
    }
    assert IdentityPath(PathAt(k));
    hide DomainName, IdentityPath;
    SpiffeOf("d", PathAt(k));
  }

  lemma ProperScope(k: nat)
    ensures WellFormed(ScopeAt(k))
  {
    assert Segment("r");
  }

  lemma ProperGrant(k: nat)
    requires 0 < k <= 33
    ensures ValidGrant(GrantAt(k))
  {
    ProperId(k - 1);
    ProperId(k);
    ProperScope(k);
    NextBelow(k - 1);
    hide SpiffeRouter, WellFormed, DescendantTest, IdAt, PathAt;
  }

  lemma NextNarrows(k: nat)
    requires 0 < k < 33
    ensures GrantIsSubset(GrantAt(k + 1), GrantAt(k))
  {
    hide IdAt, PathAt;
    assert ScopeAt(k + 1).parts[..|ScopeAt(k).parts|] == ScopeAt(k).parts;
    assert |ScopeAt(k + 1).parts| == |ScopeAt(k).parts| + 1;
  }

  /** The envelope of a level is genuine for the policy signer of the one above. */
  lemma ProperEnvelope(k: nat)
    requires k < 33
    ensures EnvelopeGenuine(EnvelopeAt(k + 1), Some(Sha256(PolicyAt(k)))) && EnvelopeCurrent(EnvelopeAt(k + 1), NOW)
  {
    ProperGrant(k + 1);
    NextBelow(k);
    hide ValidGrant, IdAt, PathAt, ScopeAt;
  }

  lemma ProperPair(k: nat)
    ensures ProperCertificates(CaAt(k + 1), PolicyAt(k + 1), CaAt(k), IdAt(k + 1))
  {
    NextBelow(k + 1);
    hide IdAt, PathAt;
  }

  lemma ProperStep(depth: int, k: nat)
    requires depth > 32 && k < 33
    ensures StepSound(VerifiedAt(depth, k), StepAt(k + 1))
  {
    ProperEnvelope(k);
    ProperPair(k);
    if k > 0 {
      NextNarrows(k);
    }
    NoText();
    hide EnvelopeGenuine, EnvelopeCurrent, ProperCertificates, GrantIsSubset, IdAt, PathAt, ScopeAt, CaAt, PolicyAt, Utf8Length;
  }

  lemma NoText()
    ensures Utf8Length("") == 0
  {}

  lemma CurrentStep(depth: int, k: nat)
    requires StepSound(VerifiedAt(depth, k), StepAt(k + 1))
    requires EnvelopeCurrent(EnvelopeAt(k + 1), NOW)
    ensures StepCurrent(StepAt(k + 1), NOW)
  {
    hide EnvelopeCurrent, IdAt, PathAt, ScopeAt, EnvelopeAt;
  }

  lemma StepVerifies(depth: int, k: nat)
    requires depth > 32 && k < 33
    ensures VerifyStep(VerifiedAt(depth, k), StepAt(k + 1), {}, NOW) == Ok(VerifiedAt(depth, k + 1))
  {
    ProperStep(depth, k);
    ProperEnvelope(k);
    CurrentStep(depth, k);
    VerifyStepExact(VerifiedAt(depth, k), StepAt(k + 1), {}, NOW);
    hide VerifyStep, StepSound, StepCurrent, IdAt, PathAt, ScopeAt;
  }

  // ----- every level is accepted -----

  /** An authority has the name and the certificates of a level. */
  predicate RowOf(id: Uri, a: Authority, j: nat) {
    id == IdAt(j) && a.caFingerprint == Sha256(CaAt(j)) && a.policyFingerprint == Some(Sha256(PolicyAt(j)))
  }

  predicate RowOfSome(id: Uri, a: Authority, k: nat) {
    exists j | 0 <= j <= k :: RowOf(id, a, j)
  }

  predicate GrantOfSome(d: Delegation, k: nat) {
    exists j | 0 < j <= k :: d.envelope.payload.id == PathAt(j)
  }

  predicate Linked(s: Store, j: nat) {
    && IdAt(j) in s.authorities
    && s.authorities[IdAt(j)].parent == if j == 0 then None else Some(IdAt(j - 1))
  }

  /** What a stage holds: one authority for each level, under the one before. */
  ghost predicate Levels(s: Store, k: nat) {
    && (forall j | 0 <= j <= k :: Linked(s, j))
    && (forall id | id in s.authorities :: RowOfSome(id, s.authorities[id], k))
    && (forall d | d in s.delegations :: GrantOfSome(d, k))
  }

  lemma RowIsOlder(id: Uri, a: Authority, k: nat)
    requires RowOfSome(id, a, k)
    ensures id != IdAt(k + 1) && a.caFingerprint != Sha256(CaAt(k + 1)) && a.policyFingerprint != Some(Sha256(PolicyAt(k + 1)))
  {
    var j :| 0 <= j <= k && RowOf(id, a, j);
    IdsDiffer(j, k + 1);
  }

  lemma GrantIsOlder(d: Delegation, k: nat)
    requires GrantOfSome(d, k)
    ensures d.envelope.payload.id != PathAt(k + 1)
  {
    var j :| 0 < j <= k && d.envelope.payload.id == PathAt(j);
    IdsDiffer(j, k + 1);
  }

  lemma NextIsNew(s: Store, k: nat)
    requires Levels(s, k)
    ensures NewTo(s, StepAt(k + 1))
  {
    hide IdAt, PathAt, CaAt, PolicyAt, RowOfSome, GrantOfSome, Linked;
    forall id | id in s.authorities
      ensures id != IdAt(k + 1) && s.authorities[id].caFingerprint != Sha256(CaAt(k + 1))
              && s.authorities[id].policyFingerprint != Some(Sha256(PolicyAt(k + 1)))
    {
      RowIsOlder(id, s.authorities[id], k);
    }
    forall d | d in s.delegations
      ensures d.envelope.payload.id != PathAt(k + 1)
    {
      GrantIsOlder(d, k);
    }
  }

  lemma NextLinks(s: Store, t: Store, k: nat)
    requires IdAt(k + 1) in t.authorities && t.authorities[IdAt(k + 1)].parent == Some(IdAt(k))
    requires t.authorities == s.authorities[IdAt(k + 1) := t.authorities[IdAt(k + 1)]]
    requires forall j | 0 <= j <= k :: Linked(s, j)
    ensures forall j | 0 <= j <= k + 1 :: Linked(t, j)
  {
    hide IdAt;
    forall j | 0 <= j <= k + 1
      ensures Linked(t, j)
    {
      IdsDiffer(j, k + 1);
      assert j <= k ==> Linked(s, j);
    }
  }

  lemma NextRow(id: Uri, a: Authority, k: nat)
    requires RowOfSome(id, a, k) || RowOf(id, a, k + 1)
    ensures RowOfSome(id, a, k + 1)
  {
    hide RowOf;
  }

  lemma NextGrant(d: Delegation, k: nat)
    requires GrantOfSome(d, k) || d == NewRow(EnvelopeAt(k + 1))
    ensures GrantOfSome(d, k + 1)
  {
    hide IdAt, PathAt, CaAt, PolicyAt, ScopeAt;
  }

  lemma NextLevels(depth: int, k: nat)
    requires Levels(Stage(depth, k), k)
    ensures Levels(Stage(depth, k + 1), k + 1)
  {
    hide IdAt, PathAt, CaAt, PolicyAt, ScopeAt, RowOfSome, GrantOfSome, Linked;
    var s, t := Stage(depth, k), Stage(depth, k + 1);
    NextLinks(s, t, k);
    hide EnvelopeAt;
    forall id | id in t.authorities
      ensures RowOfSome(id, t.authorities[id], k + 1)
    {
      NextRow(id, t.authorities[id], k);
    }
    forall d | d in t.delegations
      ensures GrantOfSome(d, k + 1)
    {
      NextGrant(d, k);
    }
  }

  /** Each stage is what the acceptance of the next level makes of the one before. */
  lemma {:induction false} StageIsReached(depth: int, k: nat)
    requires depth > 32 && k <= 33
    ensures Knows(Stage(depth, k), VerifiedAt(depth, k), NOW) && Levels(Stage(depth, k), k)
    ensures k > 0 ==> Apply(Stage(depth, k - 1), IdAt(0), Acceptance(k)) == Stage(depth, k)
  {
    hide *;
    if k == 0 {
      FirstStage(depth);
    } else {
      StageIsReached(depth, k - 1);
      NextStage(depth, k - 1);
    }
  }

  lemma FirstStage(depth: int)
    ensures Knows(Stage(depth, 0), VerifiedAt(depth, 0), NOW) && Levels(Stage(depth, 0), 0)
  {
    InitialInvariant(Root(depth));
    assert RowOf(IdAt(0), Root(depth), 0);
    hide IdAt, PathAt, CaAt, PolicyAt, ScopeAt, Invariant, AuthorityRow;
  }

  lemma NextStage(depth: int, k: nat)
    requires depth > 32 && k < 33 && Knows(Stage(depth, k), VerifiedAt(depth, k), NOW) && Levels(Stage(depth, k), k)
    ensures Knows(Stage(depth, k + 1), VerifiedAt(depth, k + 1), NOW) && Levels(Stage(depth, k + 1), k + 1)
    ensures Apply(Stage(depth, k), IdAt(0), Acceptance(k + 1)) == Stage(depth, k + 1)
  {
    var s := Stage(depth, k);
    NextIsNew(s, k);
    NextLevels(depth, k);
    StepVerifies(depth, k);
    hide Knows, Levels, NewTo, VerifyStep, AcceptDelegation, IdAt, PathAt, CaAt, PolicyAt;
    StepIsAccepted(s, VerifiedAt(depth, k), StepAt(k + 1), {}, NOW);
    AcceptChecks(s, EnvelopeAt(k + 1), Pem("", CaAt(k + 1)), Some(Pem("", PolicyAt(k + 1))), NOW);
    hide Admissible;
  }

  lemma {:induction false} RunsToTheEnd(depth: int, k: nat)
    requires depth > 32 && k <= 33
    ensures Run(Stage(depth, k), IdAt(0), AcceptancesFrom(k)) == Stage(depth, 33)
    decreases 33 - k
  {
    hide Stage, Apply;
    if k < 33 {
      StageIsReached(depth, k + 1);
      RunsToTheEnd(depth, k + 1);
    }
  }

  /** Too few parents are allowed to reach the root. */
  lemma {:induction false} WalkIsTooShort(s: Store, k: nat, j: nat, parents: nat)
    requires Levels(s, k) && parents < j <= k
    ensures Linked(s, j) && Walk(s, IdAt(j), parents) == Err(ChainTooDeep)
  {
    hide IdAt;
    assert Linked(s, j) && Linked(s, j - 1);
    if parents > 0 {
      WalkIsTooShort(s, k, j - 1, parents - 1);
    }
  }

  /** Whatever depth above 32 the root has, 33 acceptances one below the other end in an
      active authority whose chain cannot be exported. */
  lemma DeepLineageIsReachable(depth: int)
    requires depth > 32
    ensures AuthorityRow(IdAt(0), Root(depth))
    ensures var s := Run(InitialStore(Root(depth)), IdAt(0), AcceptancesFrom(0));
            && IdAt(33) in s.authorities && s.authorities[IdAt(33)].state == Active
            && Export(s, IdAt(33)) == Err(ChainTooDeep)
  {
    var s := Stage(depth, 33);
    hide *;
    RunsToTheEnd(depth, 0);
    RootIsProper(depth);
    StageIsReached(depth, 33);
    LastIsActive(depth, s);
    WalkIsTooShort(s, 33, 33, 32);
    ExportNeedsWalk(s, IdAt(33));
  }

  lemma ExportNeedsWalk(s: Store, id: Uri)
    requires id in s.authorities && Walk(s, id, 32) == Err(ChainTooDeep)
    ensures Export(s, id) == Err(ChainTooDeep)
  {
    hide Walk;
  }

  lemma RootIsProper(depth: int)
    ensures AuthorityRow(IdAt(0), Root(depth)) && Stage(depth, 0) == InitialStore(Root(depth))
  {}

  lemma LastIsActive(depth: int, s: Store)
    requires Knows(s, VerifiedAt(depth, 33), NOW)
    ensures IdAt(33) in s.authorities && s.authorities[IdAt(33)].state == Active
  {
    hide Invariant, IdAt, EnvelopeCurrent;
  }
}
