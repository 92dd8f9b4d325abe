/** The trust store as an object whose tables are updated in place. Every operation is
    proved to do what the store functions say and to keep the invariant. */
module TrustRegistry {
  import opened Results
  import opened Sequences
  import opened Identity
  import opened Grant
  import opened TrustChain
  import opened TrustStore
  import opened TrustExport

  /** The rest of the climb from `current`, with the identities met so far. */
  ghost function Climb(s: Store, current: Uri, lineage: seq<Uri>, parents: nat): Result<seq<Uri>, TrustError>
    requires current in s.authorities
    decreases parents
  {
    match s.authorities[current].parent
    case None => Ok(Reverse(lineage))
    case Some(parent) =>
      if parents == 0 then Err(ChainTooDeep)
      else if parent !in s.authorities then Err(MissingParent)
      else Climb(s, parent, lineage + [parent], parents - 1)
  }

  /** Appending on the way up and reversing at the top builds the lineage root first. */
  lemma {:induction false} ClimbAppends(s: Store, current: Uri, lineage: seq<Uri>, parents: nat)
    requires current in s.authorities
    ensures Climb(s, current, lineage + [current], parents)
            == (match Walk(s, current, parents)
                case Ok(above) => Ok(above + Reverse(lineage))
                case Err(e) => Err(e))
    decreases parents
  {
    ReverseAppend(lineage, current);
    if s.authorities[current].parent.Some? && parents > 0 {
      var parent := s.authorities[current].parent.value;
      if parent in s.authorities {
        ClimbAppends(s, parent, lineage + [current], parents - 1);
        var w := Walk(s, parent, parents - 1);
        assert w.Ok? ==> w.value + ([current] + Reverse(lineage)) == (w.value + [current]) + Reverse(lineage);
      }
    }
  }

  lemma ClimbIsWalk(s: Store, id: Uri, parents: nat)
    requires id in s.authorities
    ensures Climb(s, id, [id], parents) == Walk(s, id, parents)
  {
    ClimbAppends(s, id, [], parents);
    assert [] + [id] == [id];
    var w := Walk(s, id, parents);
    assert w.Ok? ==> w.value + Reverse([]) == w.value;
  }

  class Registry {
    const local: Uri
    var authorities: map<Uri, Authority>
    var delegations: seq<Delegation>
    var identities: seq<IssuedIdentity>
    var credentials: seq<LinkCredential>
    var revocations: seq<Revocation>

    function Contents(): Store
      reads this
    {
      Store(authorities, delegations, identities, credentials, revocations)
    }

    ghost predicate Valid()
      reads this
    {
      Invariant(Contents())
    }

    /** A router that knows only one root authority: its own, or the anchor of the chain that
        leads to it. */
    constructor (root: Authority, local: Uri)
      requires root.parent.None? && AuthorityRow(root.identity, root)
      ensures Valid() && this.local == local && Contents() == InitialStore(root)
    {
      this.local := local;
      authorities := map[root.identity := root];
      delegations := [];
      identities := [];
      credentials := [];
      revocations := [];
      new;
      InitialInvariant(root);
    }

    /** The tables as they were before a transaction. */
    method Rollback(before: Store)
      requires Invariant(before)
      modifies this
      ensures Valid() && Contents() == before
    {
      authorities, delegations, identities := before.authorities, before.delegations, before.identities;
      credentials, revocations := before.credentials, before.revocations;
    }

    method Accept(e: Envelope, ca: Pem, policy: Option<Pem>, now: Time) returns (r: Result<Uri, TrustError>)
      requires Valid()
      modifies this`authorities, this`delegations
      ensures Valid()
      ensures match AcceptDelegation(old(Contents()), e, ca, policy, now)
              case Ok(t) => r == Ok(e.payload.subject) && Contents() == t
              case Err(x) => r == Err(x) && Contents() == old(Contents())
    {
      hide Invariant, AcceptDelegation;
      var before := Contents();
      var verdict := AcceptDelegation(before, e, ca, policy, now);
      if verdict.Err? {
        return Err(verdict.error);
      }
      AcceptChecks(before, e, ca, policy, now);
      AcceptPreserves(before, e, ca, policy, now);
      authorities := authorities[e.payload.subject := NewAuthority(e.payload, ca, policy)];
      delegations := delegations + [NewRow(e)];
      r := Ok(e.payload.subject);
    }

    /** Enrollment: accept the delegation, then add the credentials of the new child. */
    method EnrollRouter(e: Envelope, ca: Pem, policy: Pem, now: Time) returns (r: Result<Uri, TrustError>)
      requires Valid()
      modifies this`authorities, this`delegations, this`identities, this`credentials
      ensures Valid()
      ensures match Enroll(old(Contents()), e, ca, policy, now)
              case Ok(t) => r == Ok(e.payload.subject) && Contents() == t
              case Err(x) => r == Err(x) && Contents() == old(Contents())
    {
      hide Invariant, AcceptDelegation;
      ghost var before := Contents();
      r := Accept(e, ca, Some(policy), now);
      if r.Ok? {
        identities := identities + [IssuedIdentity(r.value, Transport, ActiveRow), IssuedIdentity(r.value, PolicySigner, ActiveRow)];
        credentials := credentials + [LinkCredential(r.value, ActiveRow)];
        EnrollPreserves(before, e, ca, policy, now);
      }
    }

    method QuarantineAuthority(id: Uri) returns (r: Result<(), ControlError>)
      requires Valid()
      modifies this`authorities
      ensures Valid()
      ensures match Quarantine(old(Contents()), local, id)
              case Ok(t) => r.Ok? && Contents() == t
              case Err(x) => r == Err(x) && Contents() == old(Contents())
    {
      hide Invariant;
      ApplyPreserves(Contents(), local, QuarantineEvent(id));
      var child := DirectChild(Contents(), local, id);
      if child.Err? {
        return Err(child.error);
      }
      if child.value.state == Decommissioned {
        return Err(Irreversible);
      }
      authorities := authorities[id := child.value.(state := Quarantined)];
      r := Ok(());
    }

    method RestoreAuthority(id: Uri) returns (r: Result<(), ControlError>)
      requires Valid()
      modifies this`authorities
      ensures Valid()
      ensures match Restore(old(Contents()), local, id)
              case Ok(t) => r.Ok? && Contents() == t
              case Err(x) => r == Err(x) && Contents() == old(Contents())
    {
      hide Invariant;
      ApplyPreserves(Contents(), local, RestoreEvent(id));
      var child := DirectChild(Contents(), local, id);
      if child.Err? {
        return Err(child.error);
      }
      if child.value.state != Quarantined {
        return Err(NotQuarantined);
      }
      authorities := authorities[id := child.value.(state := Active)];
      r := Ok(());
    }

    method RevokeHeldDelegations(id: Uri)
      modifies this`delegations
      ensures delegations == RevokeDelegations(old(delegations), id)
    {
      var i := 0;
      while i < |delegations|
        invariant 0 <= i <= |delegations| == |old(delegations)|
        invariant forall k | 0 <= k < |delegations| ::
          delegations[k] == if k < i then RevokeDelegations(old(delegations), id)[k] else old(delegations)[k]
      {
        if delegations[i].subject == id {
          delegations := delegations[i := delegations[i].(state := RevokedRow)];
        }
        i := i + 1;
      }
    }

    method RevokeHeldIdentities(id: Uri)
      modifies this`identities
      ensures identities == RevokeIdentities(old(identities), id)
    {
      var i := 0;
      while i < |identities|
        invariant 0 <= i <= |identities| == |old(identities)|
        invariant forall k | 0 <= k < |identities| ::
          identities[k] == if k < i then RevokeIdentities(old(identities), id)[k] else old(identities)[k]
      {
        if identities[i].authority == id {
          identities := identities[i := identities[i].(state := RevokedRow)];
        }
        i := i + 1;
      }
    }

    method RevokeHeldCredentials(id: Uri)
      modifies this`credentials
      ensures credentials == RevokeCredentials(old(credentials), id)
    {
      var i := 0;
      while i < |credentials|
        invariant 0 <= i <= |credentials| == |old(credentials)|
        invariant forall k | 0 <= k < |credentials| ::
          credentials[k] == if k < i then RevokeCredentials(old(credentials), id)[k] else old(credentials)[k]
      {
        if credentials[i].authority == id {
          credentials := credentials[i := credentials[i].(state := RevokedRow)];
        }
        i := i + 1;
      }
    }

    method DecommissionAuthority(id: Uri) returns (r: Result<(), ControlError>)
      requires Valid()
      modifies this
      ensures Valid()
      ensures match Decommission(old(Contents()), local, id)
              case Ok(t) => r.Ok? && Contents() == t
              case Err(x) => r == Err(x) && Contents() == old(Contents())
    {
      hide Invariant;
      ApplyPreserves(Contents(), local, DecommissionEvent(id));
      var child := DirectChild(Contents(), local, id);
      if child.Err? {
        return Err(child.error);
      }
      if child.value.state == Decommissioned {
        return Err(AlreadyDecommissioned);
      }
      var sequence := NextRevocation(revocations);
      authorities := authorities[id := child.value.(state := Decommissioned)];
      RevokeHeldDelegations(id);
      RevokeHeldIdentities(id);
      RevokeHeldCredentials(id);
      revocations := revocations + [Revocation(IdentityRef(id), sequence)];
      r := Ok(());
    }

    /** The first half of `export_trust_chain`: climb to the root, then reverse. */
    method ClimbToRoot(id: Uri) returns (r: Result<seq<Uri>, TrustError>)
      requires id in authorities
      ensures r == Walk(Contents(), id, MAX_CHAIN - 1)
    {
      var lineage, current := [id], id;
      ClimbIsWalk(Contents(), id, MAX_CHAIN - 1);
      while authorities[current].parent.Some?
        invariant 1 <= |lineage| <= MAX_CHAIN && current in authorities
        invariant Climb(Contents(), current, lineage, MAX_CHAIN - |lineage|) == Walk(Contents(), id, MAX_CHAIN - 1)
        decreases MAX_CHAIN - |lineage|
      {
        if |lineage| >= MAX_CHAIN {
          return Err(ChainTooDeep);
        }
        var parent := authorities[current].parent.value;
        if parent !in authorities {
          return Err(MissingParent);
        }
        lineage := lineage + [parent];
        current := parent;
      }
      r := Ok(Reverse(lineage));
    }

    /** The second half: one step for every authority below the root. */
    method CollectSteps(lineage: seq<Uri>) returns (r: Result<seq<Step>, TrustError>)
      requires |lineage| >= 1 && forall x | x in lineage :: x in authorities
      ensures r == ExportSteps(Contents(), lineage[1..])
    {
      ghost var s := Contents();
      var steps: seq<Step> := [];
      var i := 1;
      assert forall rest: seq<Step> :: steps + rest == rest;
      while i < |lineage|
        invariant 1 <= i <= |lineage|
        invariant ExportSteps(s, lineage[1..])
                  == (match ExportSteps(s, lineage[i..]) case Ok(rest) => Ok(steps + rest) case Err(e) => Err(e))
      {
        var delegation := LatestActive(delegations, lineage[i]);
        assert lineage[i..][1..] == lineage[i + 1..];
        if delegation.None? {
          return Err(NoActiveDelegation);
        }
        var subject := authorities[lineage[i]];
        var step := Step(delegation.value.envelope, Some(subject.caCert), subject.policyCert);
        assert forall rest: seq<Step> :: steps + ([step] + rest) == (steps + [step]) + rest;
        steps := steps + [step];
        i := i + 1;
      }
      assert lineage[i..] == [] && steps + [] == steps;
      r := Ok(steps);
    }

    /** `export_trust_chain`. */
    method ExportTrustChain(id: Uri) returns (r: Result<Proof, TrustError>)
      requires id in authorities
      ensures r == Export(Contents(), id)
    {
      var lineage := ClimbToRoot(id);
      if lineage.Err? {
        return Err(lineage.error);
      }
      var steps := CollectSteps(lineage.value);
      if steps.Err? {
        return Err(steps.error);
      }
      r := Ok(Proof(AnchorOf(authorities[lineage.value[0]]), steps.value));
    }
  }
}
