/** The access-control document of a router as its trust store stands: every direct child
    is looked up, and one with incomplete records stops the compilation. */
module CurrentPolicy {
  import opened Results
  import opened Sequences
  import opened Identity
  import opened Grant
  import opened TrustChain
  import opened TrustStore
  import opened TrustExport
  import opened AclPolicy
  import opened AclMeaning

  datatype PolicyError = UnmanagedUplink | IncompleteChild | NoParentCertificate | IncompleteParent | InvalidGrant | InvalidPeer | Refused(error: AclError)

  /** What is kept beside the store: names and secrets of children, name and username of the
      link to the parent, and whether the configuration has a fabric uplink. */
  datatype LinkState = LinkState(
    commonName: Uri -> string,
    username: Uri -> string,
    secrets: set<Uri>,
    parentCommonName: Option<string>,
    parentUsername: Option<string>,
    uplink: bool)

  predicate HasTransport(s: Store, id: Uri) {
    exists i | 0 <= i < |s.identities| :: s.identities[i] == IssuedIdentity(id, Transport, ActiveRow)
  }

  predicate HasCredential(s: Store, id: Uri) {
    exists i | 0 <= i < |s.credentials| :: s.credentials[i] == LinkCredential(id, ActiveRow)
  }

  function DirectChildren(s: Store, local: Uri): set<Uri> {
    set id | id in s.authorities && s.authorities[id].parent == Some(local)
  }

  /** A peer, as far as its constructor accepts it. */
  function MakePeer(g: Grant, id: Uri, commonName: string, username: string, relationship: Relationship, state: AuthorityState)
    : Result<PeerPolicy, PolicyError>
  {
    var peer := FromGrant(g, commonName, username, relationship, state == Quarantined || state == Decommissioned).(identity := id);
    if ValidPeer(peer) then Ok(peer) else Err(InvalidPeer)
  }

  /** The peer that a child is compiled as. */
  function ChildPeer(s: Store, links: LinkState, id: Uri, now: Time): Result<PeerPolicy, PolicyError>
    requires id in s.authorities
  {
    var latest := LatestActive(s.delegations, id);
    var _ :- Check(latest.Some? && HasTransport(s, id) && HasCredential(s, id) && id in links.secrets, IncompleteChild);
    match VerifyEnvelope(latest.value.envelope, None, now)
    case Err(_) => Err(InvalidGrant)
    case Ok(g) =>
      MakePeer(g, id, links.commonName(id), links.username(id), Child, s.authorities[id].state)
  }

  predicate Peers(s: Store, links: LinkState, ids: set<Uri>, now: Time, peers: seq<PeerPolicy>) {
    && |peers| == |ids|
    && (forall id | id in ids :: id in s.authorities && ChildPeer(s, links, id, now).Ok? && ChildPeer(s, links, id, now).value in peers)
    && (forall p | p in peers :: exists id | id in ids :: id in s.authorities && ChildPeer(s, links, id, now) == Ok(p))
  }

  /** The loop over the children, in any order: one peer for each, or the first error. */
  method GatherChildren(s: Store, links: LinkState, local: Uri, now: Time) returns (r: Result<seq<PeerPolicy>, PolicyError>)
    ensures r.Ok? <==> forall id | id in DirectChildren(s, local) :: ChildPeer(s, links, id, now).Ok?
    ensures r.Ok? ==> Peers(s, links, DirectChildren(s, local), now, r.value)
    ensures r.Err? ==> !r.error.Refused?
  {
    hide ChildPeer;
    var rest := DirectChildren(s, local);
    ghost var done: set<Uri> := {};
    var peers: seq<PeerPolicy> := [];
    while rest != {}
      invariant done !! rest && done + rest == DirectChildren(s, local)
      invariant Peers(s, links, done, now, peers)
      decreases |rest|
    {
      var id :| id in rest;
      MoveElement(done, rest, DirectChildren(s, local), id);
      var peer := ChildPeer(s, links, id, now);
      if peer.Err? {
        ChildErrors(s, links, id, now);
        return Err(peer.error);
      }
      OnePeerMore(s, links, done, now, peers, id);
      rest, done := rest - {id}, done + {id};
      peers := peers + [peer.value];
    }
    assert done == DirectChildren(s, local);
    return Ok(peers);
  }

  lemma ChildErrors(s: Store, links: LinkState, id: Uri, now: Time)
    requires id in s.authorities && ChildPeer(s, links, id, now).Err?
    ensures !ChildPeer(s, links, id, now).error.Refused?
  {}

  lemma ParentErrors(s: Store, links: LinkState, local: Uri, now: Time)
    requires local in s.authorities && ParentPeer(s, links, local, now).Err?
    ensures !ParentPeer(s, links, local, now).error.Refused?
  {}

  lemma OnePeerMore(s: Store, links: LinkState, done: set<Uri>, now: Time, peers: seq<PeerPolicy>, id: Uri)
    requires Peers(s, links, done, now, peers) && id !in done && id in s.authorities && ChildPeer(s, links, id, now).Ok?
    ensures Peers(s, links, done + {id}, now, peers + [ChildPeer(s, links, id, now).value])
  {
    hide ChildPeer;
  }

  /** The peer that the parent is compiled as; a root has none. */
  function ParentPeer(s: Store, links: LinkState, local: Uri, now: Time): Result<seq<PeerPolicy>, PolicyError>
    requires local in s.authorities
  {
    match s.authorities[local].parent
    case None => Ok([])
    case Some(parent) =>
      var latest := LatestActive(s.delegations, local);
      var _ :- Check(links.parentCommonName.Some?, NoParentCertificate);
      var _ :- Check(parent in s.authorities && latest.Some? && links.parentUsername.Some?, IncompleteParent);
      match VerifyEnvelope(latest.value.envelope, None, now)
      case Err(_) => Err(InvalidGrant)
      case Ok(g) =>
        var peer :- MakePeer(g, parent, links.parentCommonName.value, links.parentUsername.value, Parent, s.authorities[parent].state);
        Ok([peer])
  }

  /** The delegation in force is inside its windows. */
  predicate GrantIsCurrent(s: Store, id: Uri, now: Time) {
    match LatestActive(s.delegations, id)
    case None => false
    case Some(d) => d.envelope.signer.Pem? && EnvelopeCurrent(d.envelope, now)
  }

  /** A grant in force that a peer can be made of under these names. */
  predicate UsableGrant(s: Store, id: Uri, commonName: string, username: string, now: Time) {
    && GrantIsCurrent(s, id, now) && GrantFits(LatestActive(s.delegations, id).value.envelope.payload)
    && ValidNames(commonName, username)
  }

  predicate ChildComplete(s: Store, links: LinkState, id: Uri, now: Time) {
    && !IsDecommissioned(s.authorities, id)
    && HasTransport(s, id) && HasCredential(s, id) && id in links.secrets
    && UsableGrant(s, id, links.commonName(id), links.username(id), now)
  }

  predicate ParentComplete(s: Store, links: LinkState, local: Uri, now: Time) {
    && links.parentCommonName.Some? && links.parentUsername.Some?
    && !IsDecommissioned(s.authorities, local)
    && UsableGrant(s, local, links.parentCommonName.value, links.parentUsername.value, now)
  }

  /** Everything that is looked up before the compiler is called. */
  predicate Complete(s: Store, links: LinkState, local: Uri, now: Time)
    requires local in s.authorities
  {
    && (links.uplink ==> s.authorities[local].parent.Some?)
    && (forall id | id in DirectChildren(s, local) :: ChildComplete(s, links, id, now))
    && (s.authorities[local].parent.Some? ==> ParentComplete(s, links, local, now))
  }

  /** `compile_current_policy`: the compiler is called, with one peer for each direct child and
      the parent, exactly when all records are complete; its verdict is the result, and a
      document lets through exactly what the store entitles the links to. */
  method CompileCurrentPolicy(s: Store, links: LinkState, l: LocalSettings, local: Uri, now: Time)
    returns (r: Result<AccessControl, PolicyError>)
    requires Invariant(s) && local in s.authorities
    ensures r.Ok? || r.error.Refused? <==> Complete(s, links, local, now)
    ensures r.Ok? || r.error.Refused? ==> ParentPeer(s, links, local, now).Ok? && exists peers ::
      && Peers(s, links, DirectChildren(s, local), now, peers)
      && Compiled(l, peers + ParentPeer(s, links, local, now).value) == if r.Ok? then Ok(r.value) else Err(r.error.error)
    ensures r.Ok? ==> forall strict, q: Request | q.session.protocol != "tcp" ::
      Allowed(strict, r.value, q) <==> PolicyAllows(strict, s, links, l.namespace, local, q)
  {
    hide ChildPeer, ParentPeer, Compiled, Invariant, ChildComplete, ParentComplete, Allowed, PolicyAllows;
    CompleteExactly(s, links, local, now);
    if links.uplink && s.authorities[local].parent.None? {
      return Err(UnmanagedUplink);
    }
    var gathered := GatherChildren(s, links, local, now);
    if gathered.Err? {
      return Err(gathered.error);
    }
    var above := ParentPeer(s, links, local, now);
    if above.Err? {
      ParentErrors(s, links, local, now);
      return Err(above.error);
    }
    var peers := gathered.value;
    var document := CompileAcl(l, peers + above.value);
    if document.Err? {
      return Err(Refused(document.error));
    }
    forall strict, q: Request | q.session.protocol != "tcp"
      ensures Allowed(strict, document.value, q) <==> PolicyAllows(strict, s, links, l.namespace, local, q)
    {
      PolicyMeaning(strict, s, links, l, local, now, peers, q);
    }
    return Ok(document.value);
  }

  // ----- what the policy means -----

  /** The link is that of an active child, and the child's grant in force entitles to the message. */
  predicate ChildMay(strict: bool, s: Store, links: LinkState, localNamespace: string, id: Uri, q: Request)
    requires id in s.authorities
  {
    && s.authorities[id].state == Active
    && q.session.commonName == Some(links.commonName(id)) && q.session.username == Some(links.username(id))
    && LatestActive(s.delegations, id).Some?
    && GrantEntitles(strict, LatestActive(s.delegations, id).value.envelope.payload, true, localNamespace, q)
  }

  /** The link is that of the parent, which is active, and this router's own grant entitles to it. */
  predicate ParentMay(strict: bool, s: Store, links: LinkState, localNamespace: string, local: Uri, q: Request)
    requires local in s.authorities
  {
    && s.authorities[local].parent.Some? && s.authorities[local].parent.value in s.authorities
    && s.authorities[s.authorities[local].parent.value].state == Active
    && q.session.commonName.Some? && q.session.commonName == links.parentCommonName
    && LatestActive(s.delegations, local).Some?
    && GrantEntitles(strict, LatestActive(s.delegations, local).value.envelope.payload, false, localNamespace, q)
  }

  predicate PolicyAllows(strict: bool, s: Store, links: LinkState, localNamespace: string, local: Uri, q: Request)
    requires local in s.authorities
  {
    || (exists id | id in DirectChildren(s, local) :: ChildMay(strict, s, links, localNamespace, id, q))
    || ParentMay(strict, s, links, localNamespace, local, q)
  }

  /** What a peer is made of, said of the store. */
  predicate MadeOf(p: PeerPolicy, s: Store, holder: Uri, id: Uri, commonName: string, username: string, relationship: Relationship)
    requires id in s.authorities
  {
    && LatestActive(s.delegations, holder).Some?
    && var g := LatestActive(s.delegations, holder).value.envelope.payload;
       && p == FromGrant(g, commonName, username, relationship, s.authorities[id].state != Active).(identity := id)
       && p.grantId == g.id
  }

  lemma ChildIsMadeOf(s: Store, links: LinkState, id: Uri, now: Time)
    requires id in s.authorities && ChildPeer(s, links, id, now).Ok?
    ensures MadeOf(ChildPeer(s, links, id, now).value, s, id, id, links.commonName(id), links.username(id), Child)
  {
    hide ValidPeer, FromGrant, HasTransport, HasCredential;
    var e := LatestActive(s.delegations, id).value.envelope;
    VerifyEnvelopeExact(e, None, now);
    hide VerifyEnvelope;
    MakesPeer(e.payload, id, links.commonName(id), links.username(id), Child, s.authorities[id].state);
  }

  lemma MakesPeer(g: Grant, id: Uri, commonName: string, username: string, relationship: Relationship, state: AuthorityState)
    requires MakePeer(g, id, commonName, username, relationship, state).Ok?
    ensures MakePeer(g, id, commonName, username, relationship, state).value
            == FromGrant(g, commonName, username, relationship, state != Active).(identity := id)
    ensures MakePeer(g, id, commonName, username, relationship, state).value.grantId == g.id
  {
    hide ValidPeer;
  }

  lemma ParentIsMadeOf(s: Store, links: LinkState, local: Uri, now: Time)
    requires local in s.authorities && ParentPeer(s, links, local, now).Ok? && s.authorities[local].parent.Some?
    ensures var parent := s.authorities[local].parent.value;
            && parent in s.authorities && links.parentCommonName.Some? && links.parentUsername.Some?
            && |ParentPeer(s, links, local, now).value| == 1
            && MadeOf(ParentPeer(s, links, local, now).value[0], s, local, parent,
                      links.parentCommonName.value, links.parentUsername.value, Parent)
  {
    hide ValidPeer, FromGrant;
    var e, parent := LatestActive(s.delegations, local).value.envelope, s.authorities[local].parent.value;
    VerifyEnvelopeExact(e, None, now);
    hide VerifyEnvelope;
    MakesPeer(e.payload, parent, links.parentCommonName.value, links.parentUsername.value, Parent, s.authorities[parent].state);
  }

  /** Delegations in force of different subjects are of different grants. */
  lemma GrantsDiffer(s: Store, a: Uri, b: Uri)
    requires Invariant(s) && LatestActive(s.delegations, a).Some? && LatestActive(s.delegations, b).Some? && a != b
    ensures LatestActive(s.delegations, a).value.envelope.payload.id != LatestActive(s.delegations, b).value.envelope.payload.id
  {
    hide Edge, LatestActive, AuthorityRow, CredentialsFollow, RevocationsFollow;
    var i :| 0 <= i < |s.delegations| && s.delegations[i] == LatestActive(s.delegations, a).value;
    var j :| 0 <= j < |s.delegations| && s.delegations[j] == LatestActive(s.delegations, b).value;
    assert if i < j then Related(s.delegations[i], s.delegations[j]) else Related(s.delegations[j], s.delegations[i]);
  }

  /** Whose grant a peer of the policy was made of: the child's own, or this router's for its parent. */
  predicate PeerOf(p: PeerPolicy, s: Store, links: LinkState, local: Uri, holder: Uri)
    requires local in s.authorities
  {
    if holder == local then
      && s.authorities[local].parent.Some? && s.authorities[local].parent.value in s.authorities
      && links.parentCommonName.Some? && links.parentUsername.Some?
      && MadeOf(p, s, local, s.authorities[local].parent.value, links.parentCommonName.value, links.parentUsername.value, Parent)
    else
      && holder in DirectChildren(s, local)
      && MadeOf(p, s, holder, holder, links.commonName(holder), links.username(holder), Child)
  }

  predicate AllPeers(peers: seq<PeerPolicy>, s: Store, links: LinkState, local: Uri)
    requires local in s.authorities
  {
    && (forall p | p in peers :: exists holder | holder in DirectChildren(s, local) + {local} :: PeerOf(p, s, links, local, holder))
    && (forall id | id in DirectChildren(s, local) :: exists p | p in peers :: PeerOf(p, s, links, local, id))
    && (s.authorities[local].parent.Some? ==> exists p | p in peers :: PeerOf(p, s, links, local, local))
  }

  lemma NotItsOwnChild(s: Store, local: Uri)
    requires Invariant(s) && local in s.authorities
    ensures local !in DirectChildren(s, local)
  {
    if local in DirectChildren(s, local) {
      DelegatedBelowParent(s, local);
    }
  }

  lemma ChildIsPeer(s: Store, links: LinkState, local: Uri, now: Time, id: Uri)
    requires local in s.authorities && local !in DirectChildren(s, local) && id in DirectChildren(s, local)
    requires ChildPeer(s, links, id, now).Ok?
    ensures PeerOf(ChildPeer(s, links, id, now).value, s, links, local, id)
  {
    hide ChildPeer, MadeOf;
    ChildIsMadeOf(s, links, id, now);
  }

  lemma ParentIsPeer(s: Store, links: LinkState, local: Uri, now: Time)
    requires local in s.authorities && ParentPeer(s, links, local, now).Ok?
    ensures var above := ParentPeer(s, links, local, now).value;
            if s.authorities[local].parent.Some? then |above| == 1 && PeerOf(above[0], s, links, local, local) else above == []
  {
    if s.authorities[local].parent.Some? {
      hide ParentPeer, MadeOf;
      ParentIsMadeOf(s, links, local, now);
    }
  }

  lemma GatheredChildren(s: Store, links: LinkState, local: Uri, now: Time, peers: seq<PeerPolicy>)
    requires local in s.authorities && local !in DirectChildren(s, local)
    requires Peers(s, links, DirectChildren(s, local), now, peers)
    ensures forall p | p in peers :: exists id | id in DirectChildren(s, local) :: PeerOf(p, s, links, local, id)
    ensures forall id | id in DirectChildren(s, local) :: exists p | p in peers :: PeerOf(p, s, links, local, id)
  {
    hide ChildPeer, PeerOf;
    forall p | p in peers
      ensures exists id | id in DirectChildren(s, local) :: PeerOf(p, s, links, local, id)
    {
      var id :| id in DirectChildren(s, local) && id in s.authorities && ChildPeer(s, links, id, now) == Ok(p);
      ChildIsPeer(s, links, local, now, id);
    }
    forall id | id in DirectChildren(s, local)
      ensures exists p | p in peers :: PeerOf(p, s, links, local, id)
    {
      ChildIsPeer(s, links, local, now, id);
    }
  }

  lemma PeersJoin(peers: seq<PeerPolicy>, above: seq<PeerPolicy>, s: Store, links: LinkState, local: Uri)
    requires local in s.authorities
    requires forall p | p in peers :: exists id | id in DirectChildren(s, local) :: PeerOf(p, s, links, local, id)
    requires forall id | id in DirectChildren(s, local) :: exists p | p in peers :: PeerOf(p, s, links, local, id)
    requires if s.authorities[local].parent.Some? then |above| == 1 && PeerOf(above[0], s, links, local, local) else above == []
    ensures AllPeers(peers + above, s, links, local)
  {
    hide PeerOf, DirectChildren;
    var all, holders := peers + above, DirectChildren(s, local) + {local};
    forall p | p in all
      ensures exists holder | holder in holders :: PeerOf(p, s, links, local, holder)
    {
      if p in peers {
        var id :| id in DirectChildren(s, local) && PeerOf(p, s, links, local, id);
        assert id in holders;
      } else {
        assert p == above[0] && local in holders;
      }
    }
    forall id | id in DirectChildren(s, local)
      ensures exists p | p in all :: PeerOf(p, s, links, local, id)
    {
      var p :| p in peers && PeerOf(p, s, links, local, id);
      assert p in all;
    }
    assert above != [] ==> above[0] in all;
  }

  lemma GatheredPeers(s: Store, links: LinkState, local: Uri, now: Time, peers: seq<PeerPolicy>)
    requires Invariant(s) && local in s.authorities && ParentPeer(s, links, local, now).Ok?
    requires Peers(s, links, DirectChildren(s, local), now, peers)
    ensures AllPeers(peers + ParentPeer(s, links, local, now).value, s, links, local)
  {
    hide Invariant, ParentPeer, Peers, PeerOf, AllPeers;
    NotItsOwnChild(s, local);
    ParentIsPeer(s, links, local, now);
    GatheredChildren(s, links, local, now, peers);
    PeersJoin(peers, ParentPeer(s, links, local, now).value, s, links, local);
  }

  lemma PeerGrant(p: PeerPolicy, s: Store, links: LinkState, local: Uri, holder: Uri)
    requires local in s.authorities && PeerOf(p, s, links, local, holder)
    ensures LatestActive(s.delegations, holder).Some?
    ensures p.grantId == LatestActive(s.delegations, holder).value.envelope.payload.id
    ensures forall q | PeerOf(q, s, links, local, holder) :: p == q
  {
    hide LatestActive, FromGrant;
  }

  lemma PeersAreDistinct(peers: seq<PeerPolicy>, s: Store, links: LinkState, local: Uri)
    requires Invariant(s) && local in s.authorities && AllPeers(peers, s, links, local)
    ensures DistinctGrants(peers)
  {
    hide Invariant, PeerOf, LatestActive;
    forall p, q | p in peers && q in peers && p.grantId == q.grantId
      ensures p == q
    {
      var a :| a in DirectChildren(s, local) + {local} && PeerOf(p, s, links, local, a);
      var b :| b in DirectChildren(s, local) + {local} && PeerOf(q, s, links, local, b);
      PeerGrant(p, s, links, local, a);
      PeerGrant(q, s, links, local, b);
      if a != b {
        GrantsDiffer(s, a, b);
      }
    }
  }

  predicate HolderMay(strict: bool, s: Store, links: LinkState, localNamespace: string, local: Uri, holder: Uri, q: Request)
    requires local in s.authorities && holder in s.authorities
  {
    if holder == local then ParentMay(strict, s, links, localNamespace, local, q) else ChildMay(strict, s, links, localNamespace, holder, q)
  }

  /** A peer lets through what its store records entitle to. */
  lemma PeerMay(strict: bool, s: Store, links: LinkState, localNamespace: string, local: Uri, holder: Uri, p: PeerPolicy, q: Request)
    requires local in s.authorities && holder in s.authorities && PeerOf(p, s, links, local, holder)
    ensures (Identifies(p, q.session) && !p.quarantined && Entitled(strict, p, localNamespace, q.message, q.flow, q.key))
            <==> HolderMay(strict, s, links, localNamespace, local, holder, q)
  {
    var g := LatestActive(s.delegations, holder).value.envelope.payload;
    hide Entitled, GrantEntitles, LatestActive;
    if holder == local {
      var parent := s.authorities[local].parent.value;
      EntitledByGrant(strict, g, links.parentCommonName.value, links.parentUsername.value, Parent, s.authorities[parent].state != Active,
                      parent, localNamespace, q);
    } else {
      EntitledByGrant(strict, g, links.commonName(holder), links.username(holder), Child, s.authorities[holder].state != Active,
                      holder, localNamespace, q);
    }
  }

  /** The meaning of the compiled policy, from the state of the store: a message passes on a
      link that is not plain TCP exactly when the link is an active child's or the active
      parent's and the grant in force entitles to it. */
  lemma PolicyMeaning(strict: bool, s: Store, links: LinkState, l: LocalSettings, local: Uri, now: Time, peers: seq<PeerPolicy>, q: Request)
    requires Invariant(s) && local in s.authorities && ParentPeer(s, links, local, now).Ok?
    requires Peers(s, links, DirectChildren(s, local), now, peers)
    requires Compiled(l, peers + ParentPeer(s, links, local, now).value).Ok? && q.session.protocol != "tcp"
    ensures Allowed(strict, Compiled(l, peers + ParentPeer(s, links, local, now).value).value, q)
            <==> PolicyAllows(strict, s, links, l.namespace, local, q)
  {
    var all := peers + ParentPeer(s, links, local, now).value;
    GatheredPeers(s, links, local, now, peers);
    PeersAreDistinct(all, s, links, local);
    CompiledMeaning(strict, l, all, q);
    NotItsOwnChild(s, local);
    hide Invariant, ParentPeer, Peers, Compiled, Allowed, Entitled, PeerOf, ChildMay, ParentMay, Identifies;
    SomePeerMay(strict, s, links, l.namespace, local, all, q);
  }

  lemma SomePeerMay(strict: bool, s: Store, links: LinkState, localNamespace: string, local: Uri, peers: seq<PeerPolicy>, q: Request)
    requires local in s.authorities && local !in DirectChildren(s, local) && AllPeers(peers, s, links, local)
    ensures (exists p | p in peers :: Identifies(p, q.session) && !p.quarantined && Entitled(strict, p, localNamespace, q.message, q.flow, q.key))
            <==> PolicyAllows(strict, s, links, localNamespace, local, q)
  {
    hide PeerOf, ChildMay, ParentMay, Identifies, Entitled;
    if p :| p in peers && Identifies(p, q.session) && !p.quarantined && Entitled(strict, p, localNamespace, q.message, q.flow, q.key) {
      var holder :| holder in DirectChildren(s, local) + {local} && PeerOf(p, s, links, local, holder);
      PeerMay(strict, s, links, localNamespace, local, holder, p, q);
    }
    if id :| id in DirectChildren(s, local) && ChildMay(strict, s, links, localNamespace, id, q) {
      var p :| p in peers && PeerOf(p, s, links, local, id);
      PeerMay(strict, s, links, localNamespace, local, id, p, q);
    }
    if ParentMay(strict, s, links, localNamespace, local, q) {
      ParentIsThere(strict, s, links, localNamespace, local, q);
      var p :| p in peers && PeerOf(p, s, links, local, local);
      PeerMay(strict, s, links, localNamespace, local, local, p, q);
    }
  }

  lemma ParentIsThere(strict: bool, s: Store, links: LinkState, localNamespace: string, local: Uri, q: Request)
    requires local in s.authorities && ParentMay(strict, s, links, localNamespace, local, q)
    ensures s.authorities[local].parent.Some?
  {}

  /** The link of one child, under its own names: nothing while it is quarantined, and otherwise
      exactly what its grant in force entitles it to. */
  lemma ChildLinkMeaning(strict: bool, s: Store, links: LinkState, l: LocalSettings, local: Uri, now: Time, peers: seq<PeerPolicy>,
                         id: Uri, q: Request)
    requires Invariant(s) && local in s.authorities && ParentPeer(s, links, local, now).Ok?
    requires Peers(s, links, DirectChildren(s, local), now, peers)
    requires Compiled(l, peers + ParentPeer(s, links, local, now).value).Ok? && q.session.protocol != "tcp"
    requires id in DirectChildren(s, local)
    requires q.session.commonName == Some(links.commonName(id)) && q.session.username == Some(links.username(id))
    ensures LatestActive(s.delegations, id).Some?
    ensures Allowed(strict, Compiled(l, peers + ParentPeer(s, links, local, now).value).value, q) <==>
            && s.authorities[id].state == Active
            && GrantEntitles(strict, LatestActive(s.delegations, id).value.envelope.payload, true, l.namespace, q)
  {
    hide Invariant, ParentPeer, Peers, Compiled, Allowed, GrantEntitles, NoClash, FromGrant, LatestActive, PolicyAllows, AllPeers, Separate;
    var all := peers + ParentPeer(s, links, local, now).value;
    PolicyMeaning(strict, s, links, l, local, now, peers, q);
    GatheredPeers(s, links, local, now, peers);
    NotItsOwnChild(s, local);
    CompilesExactly(l, all);
    ClashFreeIsSeparate(all);
    OnlyThisChild(s, links, local, all, id);
    OnlyItMay(strict, s, links, l.namespace, local, id, q);
  }

  lemma OnlyItMay(strict: bool, s: Store, links: LinkState, localNamespace: string, local: Uri, id: Uri, q: Request)
    requires local in s.authorities && id in DirectChildren(s, local)
    requires forall other | other in DirectChildren(s, local) && links.commonName(other) == links.commonName(id) :: other == id
    requires s.authorities[local].parent.Some? ==> links.parentCommonName != Some(links.commonName(id))
    requires q.session.commonName == Some(links.commonName(id)) && q.session.username == Some(links.username(id))
    requires LatestActive(s.delegations, id).Some?
    ensures PolicyAllows(strict, s, links, localNamespace, local, q) <==>
            && s.authorities[id].state == Active
            && GrantEntitles(strict, LatestActive(s.delegations, id).value.envelope.payload, true, localNamespace, q)
  {
    hide GrantEntitles, LatestActive;
    assert ChildMay(strict, s, links, localNamespace, id, q) <==>
           s.authorities[id].state == Active
           && GrantEntitles(strict, LatestActive(s.delegations, id).value.envelope.payload, true, localNamespace, q);
  }

  /** No other peer shares the common name of a child. */
  lemma OnlyThisChild(s: Store, links: LinkState, local: Uri, peers: seq<PeerPolicy>, id: Uri)
    requires local in s.authorities && AllPeers(peers, s, links, local) && Separate(peers)
    requires id in DirectChildren(s, local) && local !in DirectChildren(s, local)
    ensures LatestActive(s.delegations, id).Some?
    ensures forall other | other in DirectChildren(s, local) && links.commonName(other) == links.commonName(id) :: other == id
    ensures s.authorities[local].parent.Some? ==> links.parentCommonName != Some(links.commonName(id))
  {
    hide LatestActive;
    var p :| p in peers && PeerOf(p, s, links, local, id);
    forall other | other in DirectChildren(s, local) && links.commonName(other) == links.commonName(id)
      ensures other == id
    {
      var q :| q in peers && PeerOf(q, s, links, local, other);
      assert p == q && p.identity == id && q.identity == other;
    }
    if s.authorities[local].parent.Some? {
      var q :| q in peers && PeerOf(q, s, links, local, local);
      assert p.relationship.Child? && q.relationship.Parent?;
    }
  }

  /** A decommissioned child has no active delegation left, so it cannot be compiled. */
  lemma DecommissionedIsIncomplete(s: Store, links: LinkState, id: Uri, now: Time)
    requires Invariant(s) && id in s.authorities && IsDecommissioned(s.authorities, id)
    ensures ChildPeer(s, links, id, now) == Err(IncompleteChild)
  {
    DecommissionedIsRetired(s, id);
    hide Invariant;
  }

  /** Once a direct child was decommissioned, no later state of the store has a policy that
      can be compiled. */
  lemma NoPolicyEverAgain(s: Store, local: Uri, events: seq<Event>, child: Uri, links: LinkState, now: Time)
    requires Invariant(s) && child in DirectChildren(s, local) && IsDecommissioned(s.authorities, child)
    ensures var t := Run(s, local, events);
            && Invariant(t) && child in DirectChildren(t, local) && ChildPeer(t, links, child, now) == Err(IncompleteChild)
            && (local in t.authorities ==> !Complete(t, links, local, now))
  {
    hide Invariant, Run, ChildPeer;
    InvariantOverRuns(s, local, events);
    RunExtends(s, local, events);
    DecommissionedIsIncomplete(Run(s, local, events), links, child, now);
  }

  lemma PeerOfGrant(g: Grant, id: Uri, commonName: string, username: string, relationship: Relationship, state: AuthorityState)
    requires ValidGrant(g)
    ensures MakePeer(g, id, commonName, username, relationship, state).Ok? <==> ValidNames(commonName, username) && GrantFits(g)
  {
    PeerIsValidExactly(g, commonName, username, relationship, state == Quarantined || state == Decommissioned);
    hide ValidNames, GrantFits;
  }

  lemma DelegationIsGenuine(s: Store, id: Uri)
    requires Invariant(s) && id in s.authorities && s.authorities[id].parent.Some?
    ensures LatestActive(s.delegations, id).Some? <==> !IsDecommissioned(s.authorities, id)
    ensures LatestActive(s.delegations, id).Some? ==> EnvelopeGenuine(LatestActive(s.delegations, id).value.envelope, None)
  {
    var i := DelegatedRow(s, id);
    hide Invariant, LatestActive, Edge;
    EdgeBounds(s.authorities, s.delegations[i]);
  }

  lemma UsableExactly(s: Store, holder: Uri, id: Uri, commonName: string, username: string, relationship: Relationship,
                      state: AuthorityState, now: Time)
    requires LatestActive(s.delegations, holder).Some?
    requires EnvelopeGenuine(LatestActive(s.delegations, holder).value.envelope, None)
    ensures var e := LatestActive(s.delegations, holder).value.envelope;
            && (VerifyEnvelope(e, None, now).Err? ==> !UsableGrant(s, holder, commonName, username, now))
            && (VerifyEnvelope(e, None, now).Ok? ==>
                  && VerifyEnvelope(e, None, now).value == e.payload
                  && (MakePeer(e.payload, id, commonName, username, relationship, state).Ok?
                      <==> UsableGrant(s, holder, commonName, username, now)))
  {
    var e := LatestActive(s.delegations, holder).value.envelope;
    VerifyEnvelopeExact(e, None, now);
    PeerOfGrant(e.payload, id, commonName, username, relationship, state);
    hide VerifyEnvelope, MakePeer, GrantFits, ValidNames, EnvelopeGenuine, EnvelopeCurrent, LatestActive;
  }

  /** A child is compiled exactly when it is not decommissioned, its records are complete, its
      grant is current, and its names and expressions are proper. */
  lemma CompiledChildExactly(s: Store, links: LinkState, id: Uri, now: Time)
    requires Invariant(s) && id in s.authorities && s.authorities[id].parent.Some?
    ensures ChildPeer(s, links, id, now).Ok? <==> ChildComplete(s, links, id, now)
  {
    hide Invariant, VerifyEnvelope, MakePeer, EnvelopeGenuine, UsableGrant, HasTransport, HasCredential, LatestActive, IsDecommissioned;
    DelegationIsGenuine(s, id);
    if LatestActive(s.delegations, id).Some? {
      UsableExactly(s, id, id, links.commonName(id), links.username(id), Child, s.authorities[id].state, now);
    }
  }

  /** A child that has just been enrolled is compiled, given its secret, proper names and
      expressions within the limit: enrollment leaves no record out. */
  lemma EnrolledIsCompiled(s: Store, links: LinkState, e: Envelope, ca: Pem, policy: Pem, now: Time)
    requires Invariant(s) && Enroll(s, e, ca, policy, now).Ok? && e.payload.subject in links.secrets
    requires ValidNames(links.commonName(e.payload.subject), links.username(e.payload.subject)) && GrantFits(e.payload)
    ensures var t := Enroll(s, e, ca, policy, now).value;
            e.payload.subject in t.authorities && ChildPeer(t, links, e.payload.subject, now).Ok?
  {
    hide Invariant, ValidNames, GrantFits, ChildPeer;
    var t, id := Enroll(s, e, ca, policy, now).value, e.payload.subject;
    EnrollPreserves(s, e, ca, policy, now);
    EnrollLeaves(s, e, ca, policy, now);
    CompiledChildExactly(t, links, id, now);
  }

  lemma EnrollLeaves(s: Store, e: Envelope, ca: Pem, policy: Pem, now: Time)
    requires Invariant(s) && Enroll(s, e, ca, policy, now).Ok?
    ensures var t, id := Enroll(s, e, ca, policy, now).value, e.payload.subject;
            && id in t.authorities && t.authorities[id].parent.Some? && !IsDecommissioned(t.authorities, id)
            && HasTransport(t, id) && HasCredential(t, id)
            && GrantIsCurrent(t, id, now) && LatestActive(t.delegations, id).value.envelope == e
  {
    EnrollUnfolds(s, e, ca, policy, now);
    AcceptChecks(s, e, ca, Some(policy), now);
    AcceptExactly(s, e, ca, Some(policy), now);
    LatestOfNewcomer(s, NewRow(e));
    hide Invariant, AcceptDelegation, Enroll, LatestActive, EnvelopeCurrent;
    var t, id, n, m := Enroll(s, e, ca, policy, now).value, e.payload.subject, |s.identities|, |s.credentials|;
    assert t.identities[n] == IssuedIdentity(id, Transport, ActiveRow) && t.credentials[m] == LinkCredential(id, ActiveRow);
  }

  lemma CompiledParentExactly(s: Store, links: LinkState, local: Uri, now: Time)
    requires Invariant(s) && local in s.authorities
    ensures ParentPeer(s, links, local, now).Ok? <==> (s.authorities[local].parent.Some? ==> ParentComplete(s, links, local, now))
  {
    hide Invariant, VerifyEnvelope, MakePeer, EnvelopeGenuine, UsableGrant, LatestActive, IsDecommissioned, DescendantTest;
    if s.authorities[local].parent.Some? {
      var parent := s.authorities[local].parent.value;
      DelegatedBelowParent(s, local);
      DelegationIsGenuine(s, local);
      if LatestActive(s.delegations, local).Some? && links.parentCommonName.Some? && links.parentUsername.Some? {
        UsableExactly(s, local, parent, links.parentCommonName.value, links.parentUsername.value, Parent, s.authorities[parent].state, now);
      }
    }
  }

  lemma CompleteExactly(s: Store, links: LinkState, local: Uri, now: Time)
    requires Invariant(s) && local in s.authorities
    ensures Complete(s, links, local, now) <==>
            && (links.uplink ==> s.authorities[local].parent.Some?)
            && (forall id | id in DirectChildren(s, local) :: ChildPeer(s, links, id, now).Ok?)
            && ParentPeer(s, links, local, now).Ok?
  {
    hide Invariant, ChildPeer, ParentPeer, ChildComplete, ParentComplete;
    CompiledParentExactly(s, links, local, now);
    forall id | id in DirectChildren(s, local)
      ensures ChildPeer(s, links, id, now).Ok? <==> ChildComplete(s, links, id, now)
    {
      CompiledChildExactly(s, links, id, now);
    }
  }
}
