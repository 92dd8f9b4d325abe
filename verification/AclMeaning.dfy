/** What a compiled access-control document lets through, under deny-by-default evaluation
    in which a matching deny rule overrides any allow rule. */
module AclMeaning {
  import opened Results
  import opened Text
  import opened KeyScope
  import opened Grant
  import opened AclPolicy

  /** A link as the router sees it. */
  datatype Session = Session(protocol: string, commonName: Option<string>, username: Option<string>)

  datatype Request = Request(session: Session, message: MessageKind, flow: Flow, key: seq<string>)

  predicate Verbatim(chunk: string) {
    chunk != "" && chunk[0] == '@'
  }

  /** Whether a key lies in a key expression whose only wildcard is a "**" chunk, for any
      number of chunks. With `strict`, the wildcard does not reach over "@" chunks. */
  predicate Matches(strict: bool, pattern: seq<string>, key: seq<string>)
    decreases |pattern| + |key|
  {
    if pattern == [] then key == []
    else if pattern[0] == "**" then
      || Matches(strict, pattern[1..], key)
      || (key != [] && !(strict && Verbatim(key[0])) && Matches(strict, pattern, key[1..]))
    else key != [] && key[0] == pattern[0] && Matches(strict, pattern[1..], key[1..])
  }

  predicate InExpression(strict: bool, expression: string, key: seq<string>) {
    Matches(strict, Split(expression), key)
  }

  predicate Offers(property: Option<seq<string>>, value: Option<string>) {
    property.Some? ==> value.Some? && value.value in property.value
  }

  predicate SubjectMatches(subject: Subject, session: Session) {
    && Offers(subject.protocols, Some(session.protocol))
    && Offers(subject.commonNames, session.commonName)
    && Offers(subject.usernames, session.username)
  }

  predicate RuleMatches(strict: bool, rule: Rule, q: Request) {
    q.message in rule.messages && q.flow in rule.flows && exists e | e in rule.keys :: InExpression(strict, e, q.key)
  }

  /** A policy ties a rule to a subject by their identifiers, and both match. */
  predicate Hit(strict: bool, policy: Policy, subject: Subject, rule: Rule, q: Request) {
    && subject.id in policy.subjects && rule.id in policy.rules
    && SubjectMatches(subject, q.session) && RuleMatches(strict, rule, q)
  }

  ghost predicate Applies(strict: bool, acl: AccessControl, q: Request, permission: Permission) {
    exists policy, subject, rule ::
      && policy in acl.policies && subject in acl.subjects && rule in acl.rules
      && rule.permission == permission && Hit(strict, policy, subject, rule, q)
  }

  ghost predicate Allowed(strict: bool, acl: AccessControl, q: Request) {
    Applies(strict, acl, q, Allow) && !Applies(strict, acl, q, Deny)
  }

  // ----- what a peer may do, read off its grant -----

  predicate Identifies(p: PeerPolicy, s: Session) {
    s.commonName == Some(p.commonName) && (p.relationship.Child? ==> s.username == Some(p.username))
  }

  predicate InAny(strict: bool, scopes: seq<string>, key: seq<string>) {
    exists e | e in scopes :: InExpression(strict, e, key)
  }

  /** One chunk list, for a topic that is reserved for control. */
  predicate ControlKey(strict: bool, namespace: string, topics: seq<string>, key: seq<string>) {
    exists t | t in topics :: InExpression(strict, namespace + t, key)
  }

  const CONFIG_TOPICS := ["/@config/v1", "/@config/relay/v1"]
  const STATUS_TOPICS := ["/@config/status/v1", "/@topology"]

  /** What an active peer may do: stated as an administrator would, not by rules. */
  predicate Entitled(strict: bool, p: PeerPolicy, localNamespace: string, message: MessageKind, flow: Flow, key: seq<string>) {
    var child := p.relationship.Child?;
    // Towards the child or away from the parent, seen from this router.
    var downward := if child then flow.Egress? else flow.Ingress?;
    var base := if child then RemoveWildcard(p.namespace) else localNamespace;
    match message
    case Put =>
      if downward then InAny(strict, p.subscribe, key) || ControlKey(strict, base, CONFIG_TOPICS, key)
      else InAny(strict, p.publish, key) || ControlKey(strict, base, STATUS_TOPICS, key)
    case Delete => !downward && InAny(strict, p.publish, key)
    case Reply => downward && InAny(strict, p.subscribe, key)
    case DeclareSubscriber =>
      if downward then InAny(strict, p.publish, key) || ControlKey(strict, base, CONFIG_TOPICS, key)
      else InAny(strict, p.subscribe, key)
    case Query => if downward then InAny(strict, p.publish, key) else InAny(strict, p.subscribe, key)
    case _ => false
  }

  // ----- membership in the compiled document -----

  lemma {:induction false} PeerRulesMembers(peers: seq<PeerPolicy>, localNamespace: string, rule: Rule)
    ensures rule in PeerRules(peers, localNamespace) <==> exists p | p in peers :: rule in RulesOf(p, localNamespace)
  {
    hide RulesOf;
    if peers != [] {
      var n := |peers| - 1;
      PeerRulesMembers(peers[..n], localNamespace, rule);
      assert peers == peers[..n] + [peers[n]];
    }
  }

  lemma {:induction false} PeerSubjectsMembers(peers: seq<PeerPolicy>, subject: Subject)
    ensures subject in PeerSubjects(peers) <==> exists p | p in peers :: subject == SubjectOf(p)
  {
    hide SubjectOf;
    if peers != [] {
      var n := |peers| - 1;
      PeerSubjectsMembers(peers[..n], subject);
      assert peers == peers[..n] + [peers[n]];
    }
  }

  lemma {:induction false} PeerPoliciesMembers(peers: seq<PeerPolicy>, localNamespace: string, policy: Policy)
    ensures policy in PeerPolicies(peers, localNamespace) <==> exists p | p in peers :: policy == PolicyOf(p, localNamespace)
  {
    hide PolicyOf;
    if peers != [] {
      var n := |peers| - 1;
      PeerPoliciesMembers(peers[..n], localNamespace, policy);
      assert peers == peers[..n] + [peers[n]];
    }
  }

  lemma IdsMembers(rules: seq<Rule>, id: Id)
    ensures id in Ids(rules) <==> exists r | r in rules :: r.id == id
  {
    if id in Ids(rules) {
      var i :| 0 <= i < |rules| && Ids(rules)[i] == id;
      assert rules[i] in rules;
    }
    if r: Rule :| r in rules && r.id == id {
      var i :| 0 <= i < |rules| && rules[i] == r;
      assert Ids(rules)[i] == id;
    }
  }

  lemma {:induction false} RulesFromMembers(grantId: string, defs: seq<Definition>, rule: Rule)
    ensures rule in RulesFrom(grantId, defs) <==> exists d | d in defs :: d.scopes != [] && rule == RuleOf(grantId, d)
  {
    hide RuleOf;
    if defs != [] {
      var n := |defs| - 1;
      RulesFromMembers(grantId, defs[..n], rule);
      assert defs == defs[..n] + [defs[n]];
    }
  }

  lemma RulesOfPeer(p: PeerPolicy, localNamespace: string, rule: Rule)
    requires rule in RulesOf(p, localNamespace)
    ensures rule.id.OfPeer? && rule.id.grantId == p.grantId
    ensures rule.permission == if p.quarantined then Deny else Allow
  {
    if !p.quarantined {
      RulesFromMembers(p.grantId, Definitions(p, localNamespace), rule);
    }
  }

  predicate DistinctGrants(peers: seq<PeerPolicy>) {
    forall p, q | p in peers && q in peers && p.grantId == q.grantId :: p == q
  }

  predicate DefinitionMatches(strict: bool, d: Definition, q: Request) {
    q.message in d.messages && q.flow in d.flows && InAny(strict, d.scopes, q.key)
  }

  /** An active peer's rules are its entitlement. */
  lemma EntitlementIsRules(strict: bool, p: PeerPolicy, localNamespace: string, q: Request)
    requires !p.quarantined
    ensures Entitled(strict, p, localNamespace, q.message, q.flow, q.key)
            <==> exists rule | rule in RulesOf(p, localNamespace) :: RuleMatches(strict, rule, q)
  {
    var defs := Definitions(p, localNamespace);
    DefinitionsAreEntitlement(strict, p, localNamespace, q);
    hide Definitions, Entitled, InExpression;
    if d :| d in defs && DefinitionMatches(strict, d, q) {
      var rule := RuleOf(p.grantId, d);
      RulesFromMembers(p.grantId, defs, rule);
      assert rule in RulesOf(p, localNamespace) && RuleMatches(strict, rule, q);
    }
    if rule: Rule :| rule in RulesOf(p, localNamespace) && RuleMatches(strict, rule, q) {
      RulesFromMembers(p.grantId, defs, rule);
      var d :| d in defs && d.scopes != [] && rule == RuleOf(p.grantId, d);
      assert DefinitionMatches(strict, d, q);
    }
  }

  predicate AnyOfSix(strict: bool, d: seq<Definition>, q: Request)
    requires |d| == 6
  {
    || DefinitionMatches(strict, d[0], q) || DefinitionMatches(strict, d[1], q) || DefinitionMatches(strict, d[2], q)
    || DefinitionMatches(strict, d[3], q) || DefinitionMatches(strict, d[4], q) || DefinitionMatches(strict, d[5], q)
  }

  lemma AnyOfSixMembers(defs: seq<Definition>, strict: bool, q: Request)
    requires |defs| == 6
    ensures (exists d | d in defs :: DefinitionMatches(strict, d, q)) <==> AnyOfSix(strict, defs, q)
  {}

  lemma ChildEntitlement(strict: bool, p: PeerPolicy, localNamespace: string, q: Request)
    requires p.relationship.Child?
    ensures Entitled(strict, p, localNamespace, q.message, q.flow, q.key) <==> AnyOfSix(strict, Definitions(p, localNamespace), q)
  {
    var base := RemoveWildcard(p.namespace);
    TopicPair(strict, base, "/@config/v1", "/@config/relay/v1", q.key);
    TopicPair(strict, base, "/@config/status/v1", "/@topology", q.key);
    hide InExpression, RemoveWildcard, InAny, ControlKey;
  }

  lemma ParentEntitlement(strict: bool, p: PeerPolicy, localNamespace: string, q: Request)
    requires p.relationship.Parent?
    ensures Entitled(strict, p, localNamespace, q.message, q.flow, q.key) <==> AnyOfSix(strict, Definitions(p, localNamespace), q)
  {
    TopicPair(strict, localNamespace, "/@config/v1", "/@config/relay/v1", q.key);
    TopicPair(strict, localNamespace, "/@config/status/v1", "/@topology", q.key);
    hide InExpression, RemoveWildcard, InAny, ControlKey;
  }

  lemma DefinitionsAreEntitlement(strict: bool, p: PeerPolicy, localNamespace: string, q: Request)
    ensures Entitled(strict, p, localNamespace, q.message, q.flow, q.key)
            <==> exists d | d in Definitions(p, localNamespace) :: DefinitionMatches(strict, d, q)
  {
    hide Entitled, DefinitionMatches, AnyOfSix;
    AnyOfSixMembers(Definitions(p, localNamespace), strict, q);
    if p.relationship.Child? {
      ChildEntitlement(strict, p, localNamespace, q);
    } else {
      ParentEntitlement(strict, p, localNamespace, q);
    }
  }

  lemma TopicPair(strict: bool, base: string, a: string, b: string, key: seq<string>)
    ensures InAny(strict, [base + a, base + b], key) <==> ControlKey(strict, base, [a, b], key)
  {}

  /** For a session that is not a plain TCP link, a hit comes from one peer's own entries. */
  lemma HitIsOnePeer(strict: bool, l: LocalSettings, peers: seq<PeerPolicy>, q: Request, policy: Policy, subject: Subject, rule: Rule)
    returns (p: PeerPolicy)
    requires q.session.protocol != "tcp" && DistinctGrants(peers)
    requires var acl := Document(l, peers);
             policy in acl.policies && subject in acl.subjects && rule in acl.rules && Hit(strict, policy, subject, rule, q)
    ensures p in peers && Identifies(p, q.session) && rule in RulesOf(p, l.namespace) && RuleMatches(strict, rule, q)
  {
    hide RuleMatches, RulesOf, LocalRules;
    PeerPoliciesMembers(peers, l.namespace, policy);
    PeerSubjectsMembers(peers, subject);
    PeerRulesMembers(peers, l.namespace, rule);
    assert subject != LOCAL_SUBJECT;
    p :| p in peers && subject == SubjectOf(p);
    assert policy != LocalPolicy(l);
    var owner :| owner in peers && policy == PolicyOf(owner, l.namespace);
    assert owner == p;
    IdsMembers(RulesOf(p, l.namespace), rule.id);
    var twin :| twin in RulesOf(p, l.namespace) && twin.id == rule.id;
    RulesOfPeer(p, l.namespace, twin);
    LocalRuleIds(l);
    assert rule !in LocalRules(l);
    var maker :| maker in peers && rule in RulesOf(maker, l.namespace);
    RulesOfPeer(maker, l.namespace, rule);
  }

  lemma LocalRuleIds(l: LocalSettings)
    ensures forall r | r in LocalRules(l) :: r.id.Local? && r.permission.Allow?
  {}

  lemma PeerRuleHits(strict: bool, l: LocalSettings, peers: seq<PeerPolicy>, q: Request, p: PeerPolicy, rule: Rule)
    requires p in peers && Identifies(p, q.session) && rule in RulesOf(p, l.namespace) && RuleMatches(strict, rule, q)
    ensures Applies(strict, Document(l, peers), q, rule.permission)
  {
    hide RuleMatches, RulesOf, LocalRules;
    var policy, subject := PolicyOf(p, l.namespace), SubjectOf(p);
    PeerPoliciesMembers(peers, l.namespace, policy);
    PeerSubjectsMembers(peers, subject);
    PeerRulesMembers(peers, l.namespace, rule);
    IdsMembers(RulesOf(p, l.namespace), rule.id);
    assert Hit(strict, policy, subject, rule, q);
  }

  /** Distinct peers identify distinct sessions. */
  predicate Separate(peers: seq<PeerPolicy>) {
    forall p, q | p in peers && q in peers && p.commonName == q.commonName :: p == q
  }

  /** The meaning of the compiled document, for every link but plain TCP: a message passes
      exactly when an active peer that the link identifies is entitled to it. */
  lemma DocumentMeaning(strict: bool, l: LocalSettings, peers: seq<PeerPolicy>, q: Request)
    requires q.session.protocol != "tcp" && DistinctGrants(peers) && Separate(peers)
    ensures Allowed(strict, Document(l, peers), q) <==>
            exists p | p in peers :: Identifies(p, q.session) && !p.quarantined
                                     && Entitled(strict, p, l.namespace, q.message, q.flow, q.key)
  {
    hide Document, RuleMatches, RulesOf, Hit, Entitled;
    var acl := Document(l, peers);
    if Allowed(strict, acl, q) {
      var policy, subject, rule :| policy in acl.policies && subject in acl.subjects && rule in acl.rules
                                   && rule.permission == Allow && Hit(strict, policy, subject, rule, q);
      var p := HitIsOnePeer(strict, l, peers, q, policy, subject, rule);
      RulesOfPeer(p, l.namespace, rule);
      EntitlementIsRules(strict, p, l.namespace, q);
    }
    if p :| p in peers && Identifies(p, q.session) && !p.quarantined && Entitled(strict, p, l.namespace, q.message, q.flow, q.key) {
      EntitlementIsRules(strict, p, l.namespace, q);
      var rule: Rule :| rule in RulesOf(p, l.namespace) && RuleMatches(strict, rule, q);
      RulesOfPeer(p, l.namespace, rule);
      PeerRuleHits(strict, l, peers, q, p, rule);
      if Applies(strict, acl, q, Deny) {
        var policy, subject, denial :| policy in acl.policies && subject in acl.subjects && denial in acl.rules
                                       && denial.permission == Deny && Hit(strict, policy, subject, denial, q);
        var other := HitIsOnePeer(strict, l, peers, q, policy, subject, denial);
        assert other == p;
        RulesOfPeer(p, l.namespace, denial);
        assert false;
      }
    }
  }

  lemma ClashFreeIsSeparate(peers: seq<PeerPolicy>)
    requires NoClash(peers)
    ensures Separate(peers)
  {
    if peers != [] {
      ClashFreeIsSeparate(peers[1..]);
      assert peers == [peers[0]] + peers[1..];
    }
  }

  /** The same for whatever the compiler accepts, in terms of the peers it was given. */
  lemma CompiledMeaning(strict: bool, l: LocalSettings, peers: seq<PeerPolicy>, q: Request)
    requires q.session.protocol != "tcp" && DistinctGrants(peers) && Compiled(l, peers).Ok?
    ensures Allowed(strict, Compiled(l, peers).value, q) <==>
            exists p | p in peers :: Identifies(p, q.session) && !p.quarantined
                                     && Entitled(strict, p, l.namespace, q.message, q.flow, q.key)
  {
    hide Entitled, Identifies, Document, Allowed;
    var sorted := Sort(peers);
    assert forall p :: p in peers <==> p in multiset(sorted);
    assert forall p :: p in peers <==> p in sorted;
    ConflictExact(sorted, {}, {});
    ClashFreeIsSeparate(sorted);
    DocumentMeaning(strict, l, sorted, q);
  }

  /** What a local client may do, in either direction: all there is with the router's own data,
      reading and injecting inbound data, introspection, and the federation's control topics. */
  predicate LocallyEntitled(strict: bool, l: LocalSettings, message: MessageKind, key: seq<string>) {
    var own, inbound := InExpression(strict, l.dataScope, key), InExpression(strict, l.inboundScope, key);
    var admin := InExpression(strict, "@/**", key);
    var control := ControlKey(strict, l.federationRoot + "/**", CONFIG_TOPICS + STATUS_TOPICS, key);
    match message
    case Put => own || inbound || control
    case DeclareSubscriber => own || inbound || control
    case Query => own || inbound || admin
    case Reply => own || inbound || admin
    case Delete => own
    case DeclareQueryable => own
    case _ => false
  }

  lemma FourTopics(strict: bool, root: string, key: seq<string>)
    ensures ControlKey(strict, root + "/**", CONFIG_TOPICS + STATUS_TOPICS, key) <==>
            || InExpression(strict, root + "/**/@config/v1", key) || InExpression(strict, root + "/**/@config/relay/v1", key)
            || InExpression(strict, root + "/**/@config/status/v1", key) || InExpression(strict, root + "/**/@topology", key)
  {
    hide InExpression;
    RootTopics(root);
    var a, b, c, d := "/@config/v1", "/@config/relay/v1", "/@config/status/v1", "/@topology";
    ControlOfFour(strict, root + "/**", a, b, c, d, key);
    assert CONFIG_TOPICS + STATUS_TOPICS == [a, b, c, d];
    hide ControlKey;
  }

  lemma RootTopics(root: string)
    ensures root + "/**" + "/@config/v1" == root + "/**/@config/v1" && root + "/**" + "/@config/relay/v1" == root + "/**/@config/relay/v1"
    ensures root + "/**" + "/@config/status/v1" == root + "/**/@config/status/v1" && root + "/**" + "/@topology" == root + "/**/@topology"
  {}

  lemma ControlOfFour(strict: bool, base: string, a: string, b: string, c: string, d: string, key: seq<string>)
    ensures ControlKey(strict, base, [a, b, c, d], key) <==>
            || InExpression(strict, base + a, key) || InExpression(strict, base + b, key)
            || InExpression(strict, base + c, key) || InExpression(strict, base + d, key)
  {
    hide InExpression;
    assert forall t :: t in [a, b, c, d] <==> t == a || t == b || t == c || t == d;
  }

  lemma LocalEntitlementIsRules(strict: bool, l: LocalSettings, q: Request)
    ensures LocallyEntitled(strict, l, q.message, q.key) <==> exists rule | rule in LocalRules(l) :: RuleMatches(strict, rule, q)
  {
    FourTopics(strict, l.federationRoot, q.key);
    hide InExpression, ControlKey;
    var rules := LocalRules(l);
    assert forall r :: r in rules <==> r == rules[0] || r == rules[1] || r == rules[2] || r == rules[3];
    LocalRuleMatches(strict, l, q);
    hide LocalRules, RuleMatches;
  }

  lemma LocalRuleMatches(strict: bool, l: LocalSettings, q: Request)
    ensures RuleMatches(strict, LocalRules(l)[0], q) <==>
            q.message in {Put, Delete, DeclareSubscriber, Query, DeclareQueryable, Reply} && InExpression(strict, l.dataScope, q.key)
    ensures RuleMatches(strict, LocalRules(l)[1], q) <==>
            q.message in {Put, DeclareSubscriber, Query, Reply} && InExpression(strict, l.inboundScope, q.key)
    ensures RuleMatches(strict, LocalRules(l)[2], q) <==>
            q.message in {Query, Reply} && InExpression(strict, "@/**", q.key)
    ensures RuleMatches(strict, LocalRules(l)[3], q) <==>
            q.message in {Put, DeclareSubscriber} && ControlKey(strict, l.federationRoot + "/**", CONFIG_TOPICS + STATUS_TOPICS, q.key)
  {
    FourTopics(strict, l.federationRoot, q.key);
    hide InExpression, ControlKey;
    assert q.flow == Ingress || q.flow == Egress;
  }

  /** A plain TCP link without a certificate gets what a local client may do and nothing else. */
  lemma LocalMeaning(strict: bool, l: LocalSettings, peers: seq<PeerPolicy>, q: Request)
    requires q.session.protocol == "tcp" && q.session.commonName.None?
    ensures Allowed(strict, Document(l, peers), q) <==> LocallyEntitled(strict, l, q.message, q.key)
  {
    LocalEntitlementIsRules(strict, l, q);
    var acl := Document(l, peers);
    LocalRuleIds(l);
    hide RuleMatches, RulesOf, LocalRules, LocallyEntitled;
    forall policy, subject, rule | policy in acl.policies && subject in acl.subjects && rule in acl.rules && Hit(strict, policy, subject, rule, q)
      ensures rule in LocalRules(l)
    {
      PeerSubjectsMembers(peers, subject);
      assert subject == LOCAL_SUBJECT;
      PeerPoliciesMembers(peers, l.namespace, policy);
      assert policy == LocalPolicy(l);
      IdsMembers(LocalRules(l), rule.id);
      PeerRulesMembers(peers, l.namespace, rule);
      if p :| p in peers && rule in RulesOf(p, l.namespace) {
        RulesOfPeer(p, l.namespace, rule);
      }
    }
    if rule: Rule :| rule in LocalRules(l) && RuleMatches(strict, rule, q) {
      IdsMembers(LocalRules(l), rule.id);
      assert LocalPolicy(l) in acl.policies && LOCAL_SUBJECT in acl.subjects && rule in acl.rules;
      assert Hit(strict, LocalPolicy(l), LOCAL_SUBJECT, rule, q);
    }
  }

  /** Every identifier that a policy mentions is declared. */
  lemma ReferencesResolve(l: LocalSettings, peers: seq<PeerPolicy>, policy: Policy, id: Id)
    requires policy in Document(l, peers).policies
    ensures id in policy.rules ==> exists r | r in Document(l, peers).rules :: r.id == id
    ensures id in policy.subjects ==> exists s | s in Document(l, peers).subjects :: s.id == id
  {
    hide RulesOf, LocalRules;
    var acl := Document(l, peers);
    PeerPoliciesMembers(peers, l.namespace, policy);
    if policy == LocalPolicy(l) {
      IdsMembers(LocalRules(l), id);
      assert LOCAL_SUBJECT in acl.subjects;
    } else {
      var p :| p in peers && policy == PolicyOf(p, l.namespace);
      IdsMembers(RulesOf(p, l.namespace), id);
      if r: Rule :| r in RulesOf(p, l.namespace) && r.id == id {
        PeerRulesMembers(peers, l.namespace, r);
        assert r in acl.rules;
      }
      PeerSubjectsMembers(peers, SubjectOf(p));
      assert SubjectOf(p) in acl.subjects;
    }
  }

  /** A link that belongs to no active peer is allowed nothing at all. */
  lemma NothingWithoutActivePeer(strict: bool, l: LocalSettings, peers: seq<PeerPolicy>, q: Request)
    requires q.session.protocol != "tcp" && DistinctGrants(peers) && Compiled(l, peers).Ok?
    requires forall p | p in peers && Identifies(p, q.session) :: p.quarantined
    ensures !Allowed(strict, Compiled(l, peers).value, q)
  {
    CompiledMeaning(strict, l, peers, q);
  }

  // ----- key expressions as sets of keys -----

  lemma {:induction false} LiteralPrefix(strict: bool, literal: seq<string>, tail: seq<string>, key: seq<string>)
    requires "**" !in literal
    ensures Matches(strict, literal + tail, key) <==> literal <= key && Matches(strict, tail, key[|literal|..])
  {
    if literal == [] {
      assert literal + tail == tail && key[0..] == key;
    } else {
      assert (literal + tail)[1..] == literal[1..] + tail;
      if key != [] {
        LiteralPrefix(strict, literal[1..], tail, key[1..]);
        if key[0] == literal[0] && literal[1..] <= key[1..] {
          assert key == [key[0]] + key[1..] && literal == [literal[0]] + literal[1..];
        }
        if literal <= key {
          assert key[1..][|literal| - 1..] == key[|literal|..];
        }
      }
    }
  }

  predicate Plain(chunks: seq<string>) {
    forall c | c in chunks :: !Verbatim(c)
  }

  lemma {:induction false} WildcardAlone(strict: bool, key: seq<string>)
    ensures Matches(strict, ["**"], key) <==> !strict || Plain(key)
  {
    var pattern := ["**"];
    assert pattern[1..] == [];
    if key != [] {
      WildcardAlone(strict, key[1..]);
      assert key == [key[0]] + key[1..];
    }
  }

  lemma SegmentsAreLiteral(parts: seq<string>)
    requires forall s | s in parts :: Segment(s)
    ensures "**" !in parts && Plain(parts)
  {
    assert "**"[0] == '*' && !SegmentChar('*');
    forall c | c in parts
      ensures !Verbatim(c)
    {
      assert c[0] in c;
    }
  }

  /** The keys in a scope expression: those of the scope it parses to, except that a strict
      wildcard leaves out what lies behind a reserved chunk. */
  lemma ScopeKeys(strict: bool, expression: string, key: seq<string>)
    requires Parse(expression).Parsed?
    ensures var s := Parse(expression).scope;
            InExpression(strict, expression, key) <==>
            Admits(s, key) && (strict && s.wildcard ==> Plain(key[|s.parts|..]))
  {
    var s := Parse(expression).scope;
    var tail := if s.wildcard then ["**"] else [];
    assert Split(expression) == s.parts + tail;
    SegmentsAreLiteral(s.parts);
    LiteralPrefix(strict, s.parts, tail, key);
    if s.parts <= key {
      WildcardAlone(strict, key[|s.parts|..]);
      assert key == s.parts + key[|s.parts|..];
    }
  }

  /** Dropping the wildcard of a scope leaves its literal segments. */
  lemma RemoveWildcardParts(namespace: string)
    requires Parse(namespace).Parsed?
    ensures Split(RemoveWildcard(namespace)) == Parse(namespace).scope.parts
  {
    var base := RemoveWildcard(namespace);
    var parts := Parse(namespace).scope.parts;
    if base != namespace {
      assert namespace == base + "/" + "**";
      SplitAppend(base, "**");
      assert Split("**") == ["**"] by {
        assert "**"[1..] == "*" && "*"[1..] == "";
      }
      assert Split(namespace)[|Split(namespace)| - 1] == "**";
    } else if Parse(namespace).scope.wildcard {
      WildcardIsSuffix(namespace);
      assert false;
    }
  }

  lemma WildcardIsSuffix(namespace: string)
    requires Parse(namespace).Parsed? && Parse(namespace).scope.wildcard
    ensures RemoveWildcard(namespace) != namespace
  {
    ParseRender(namespace);
    var parts := Parse(namespace).scope.parts;
    JoinLast(parts, "**");
    assert namespace == Join(parts) + "/**";
  }

  lemma {:induction false} JoinLast(parts: seq<string>, last: string)
    requires |parts| >= 1
    ensures Join(parts + [last]) == Join(parts) + "/" + last
  {
    if |parts| > 1 {
      JoinLast(parts[1..], last);
      assert (parts + [last])[1..] == parts[1..] + [last];
    } else {
      assert (parts + [last])[1..] == [last];
    }
  }

  lemma ControlChunks(strict: bool, namespace: string, topic: string, key: seq<string>)
    requires Parse(namespace).Parsed? && topic != "" && topic[0] == '/' && "**" !in Split(topic[1..])
    ensures InExpression(strict, RemoveWildcard(namespace) + topic, key) <==> key == Parse(namespace).scope.parts + Split(topic[1..])
  {
    var base := RemoveWildcard(namespace);
    var parts := Parse(namespace).scope.parts;
    var chunks := parts + Split(topic[1..]);
    assert base + topic == base + "/" + topic[1..];
    SplitAppend(base, topic[1..]);
    RemoveWildcardParts(namespace);
    SegmentsAreLiteral(parts);
    LiteralPrefix(strict, chunks, [], key);
    assert chunks + [] == chunks;
    if chunks <= key {
      assert key == chunks + key[|chunks|..];
    }
  }

  /** The four control topics of a namespace, as keys. */
  function Topic(parts: seq<string>, topic: ControlTopic): seq<string> {
    match topic
    case Config => parts + ["@config", "v1"]
    case RelayConfig => parts + ["@config", "relay", "v1"]
    case StatusReport => parts + ["@config", "status", "v1"]
    case TopologyReport => parts + ["@topology"]
  }

  datatype ControlTopic = Config | RelayConfig | StatusReport | TopologyReport

  lemma TopicText()
    ensures Split("@config/v1") == ["@config", "v1"]
    ensures Split("@config/relay/v1") == ["@config", "relay", "v1"]
    ensures Split("@config/status/v1") == ["@config", "status", "v1"]
    ensures Split("@topology") == ["@topology"]
  {
    SplitJoin(["@config", "v1"]);
    SplitJoin(["@config", "relay", "v1"]);
    SplitJoin(["@config", "status", "v1"]);
    SplitJoin(["@topology"]);
    JoinTexts();
  }

  lemma JoinTexts()
    ensures Join(["@config", "v1"]) == "@config/v1"
    ensures Join(["@config", "relay", "v1"]) == "@config/relay/v1"
    ensures Join(["@config", "status", "v1"]) == "@config/status/v1"
    ensures Join(["@topology"]) == "@topology"
  {}

  lemma TwoTopics(strict: bool, base: string, a: string, b: string, key: seq<string>)
    ensures ControlKey(strict, base, [a, b], key) <==> InExpression(strict, base + a, key) || InExpression(strict, base + b, key)
  {}

  lemma ControlKeys(strict: bool, namespace: string, key: seq<string>)
    requires Parse(namespace).Parsed?
    ensures var base, parts := RemoveWildcard(namespace), Parse(namespace).scope.parts;
            && (ControlKey(strict, base, CONFIG_TOPICS, key) <==> key == Topic(parts, Config) || key == Topic(parts, RelayConfig))
            && (ControlKey(strict, base, STATUS_TOPICS, key) <==> key == Topic(parts, StatusReport) || key == Topic(parts, TopologyReport))
  {
    hide Split, InExpression, Parse, ControlKey;
    var base := RemoveWildcard(namespace);
    TopicText();
    TwoTopics(strict, base, "/@config/v1", "/@config/relay/v1", key);
    TwoTopics(strict, base, "/@config/status/v1", "/@topology", key);
    ControlChunks(strict, namespace, "/@config/v1", key);
    ControlChunks(strict, namespace, "/@config/relay/v1", key);
    ControlChunks(strict, namespace, "/@config/status/v1", key);
    ControlChunks(strict, namespace, "/@topology", key);
  }

  // ----- children in their own namespaces -----

  /** What the grant contract promises of a peer: its publish scopes lie in its namespace. */
  predicate KeepsContract(p: PeerPolicy) {
    && Parse(p.namespace).Parsed? && Parse(p.namespace).scope.wildcard
    && forall e | e in p.publish :: Parse(e).Parsed? && Contains(Parse(p.namespace).scope, Parse(e).scope)
  }

  function Home(p: PeerPolicy): seq<string>
    requires Parse(p.namespace).Parsed?
  {
    Parse(p.namespace).scope.parts
  }

  lemma EntitledWritesAreHome(strict: bool, p: PeerPolicy, localNamespace: string, message: MessageKind, key: seq<string>)
    requires KeepsContract(p) && p.relationship.Child? && (message == Put || message == Delete)
    requires Entitled(strict, p, localNamespace, message, Ingress, key)
    ensures Home(p) <= key
    ensures (exists e | e in p.publish :: InExpression(strict, e, key))
            || (message == Put && (key == Topic(Home(p), StatusReport) || key == Topic(Home(p), TopologyReport)))
  {
    hide Parse, InExpression, ControlKey;
    ControlKeys(strict, p.namespace, key);
    if e :| e in p.publish && InExpression(strict, e, key) {
      PublishedIsHome(strict, p, e, key);
    }
  }

  lemma PublishedIsHome(strict: bool, p: PeerPolicy, e: string, key: seq<string>)
    requires KeepsContract(p) && e in p.publish && InExpression(strict, e, key)
    ensures Home(p) <= key
  {
    ScopeKeys(strict, e, key);
    hide Parse;
    var s, parts := Parse(e).scope, Home(p);
    assert s.parts <= key;
    assert parts == s.parts[..|parts|] == key[..|parts|];
  }

  /** What a child sends into the router stays in that child's own namespace: its publish
      scopes, and for puts its two reporting topics. */
  lemma ChildWritesAreHome(strict: bool, l: LocalSettings, peers: seq<PeerPolicy>, p: PeerPolicy, q: Request)
    requires DistinctGrants(peers) && Compiled(l, peers).Ok? && p in peers && p.relationship.Child? && KeepsContract(p)
    requires q.session.protocol != "tcp" && q.session.commonName == Some(p.commonName)
    requires q.flow == Ingress && (q.message == Put || q.message == Delete)
    requires Allowed(strict, Compiled(l, peers).value, q)
    ensures Home(p) <= q.key && !p.quarantined && q.session.username == Some(p.username)
    ensures (exists e | e in p.publish :: InExpression(strict, e, q.key))
            || (q.message == Put && (q.key == Topic(Home(p), StatusReport) || q.key == Topic(Home(p), TopologyReport)))
  {
    hide Compiled, Allowed, Entitled, KeepsContract, InExpression, Home, DistinctGrants;
    var other := OnlyPeer(strict, l, peers, p, q);
    EntitledWritesAreHome(strict, p, l.namespace, q.message, q.key);
  }

  lemma OnlyPeer(strict: bool, l: LocalSettings, peers: seq<PeerPolicy>, p: PeerPolicy, q: Request) returns (other: PeerPolicy)
    requires DistinctGrants(peers) && Compiled(l, peers).Ok? && p in peers
    requires q.session.protocol != "tcp" && q.session.commonName == Some(p.commonName)
    requires Allowed(strict, Compiled(l, peers).value, q)
    ensures other == p && Identifies(p, q.session) && !p.quarantined
    ensures Entitled(strict, p, l.namespace, q.message, q.flow, q.key)
  {
    hide Entitled, Compiled, Allowed, NoClash;
    CompiledMeaning(strict, l, peers, q);
    CompilesExactly(l, peers);
    ClashFreeIsSeparate(peers);
    other :| other in peers && Identifies(other, q.session) && !other.quarantined
             && Entitled(strict, other, l.namespace, q.message, q.flow, q.key);
  }

  /** What the router puts out to a child is exactly what the child may subscribe to, and
      its two configuration topics. */
  lemma ChildReceivesExactly(strict: bool, l: LocalSettings, peers: seq<PeerPolicy>, p: PeerPolicy, q: Request)
    requires DistinctGrants(peers) && Compiled(l, peers).Ok? && p in peers && p.relationship.Child? && !p.quarantined
    requires Parse(p.namespace).Parsed? && q.session.protocol != "tcp" && Identifies(p, q.session)
    requires q.flow == Egress && q.message == Put
    ensures Allowed(strict, Compiled(l, peers).value, q) <==>
            || (exists e | e in p.subscribe :: InExpression(strict, e, q.key))
            || q.key == Topic(Home(p), Config) || q.key == Topic(Home(p), RelayConfig)
  {
    ControlKeys(strict, p.namespace, q.key);
    if Allowed(strict, Compiled(l, peers).value, q) {
      var other := OnlyPeer(strict, l, peers, p, q);
    } else {
      CompiledMeaning(strict, l, peers, q);
    }
  }

  lemma PrefixesCompare(a: seq<string>, b: seq<string>, key: seq<string>)
    ensures a <= key && b <= key ==> a <= b || b <= a
  {}

  /** Children whose namespaces do not lie one in the other never write the same key. */
  lemma SiblingsNeverCollide(strict: bool, l: LocalSettings, peers: seq<PeerPolicy>, p: PeerPolicy, r: PeerPolicy, q: Request, w: Request)
    requires DistinctGrants(peers) && Compiled(l, peers).Ok? && p in peers && r in peers
    requires p.relationship.Child? && KeepsContract(p) && r.relationship.Child? && KeepsContract(r)
    requires !(Home(p) <= Home(r)) && !(Home(r) <= Home(p))
    requires q.session.protocol != "tcp" && q.session.commonName == Some(p.commonName)
    requires w.session.protocol != "tcp" && w.session.commonName == Some(r.commonName)
    requires q.flow == w.flow == Ingress && (q.message == Put || q.message == Delete) && (w.message == Put || w.message == Delete)
    requires Allowed(strict, Compiled(l, peers).value, q) && Allowed(strict, Compiled(l, peers).value, w)
    ensures q.key != w.key
  {
    hide Compiled, Allowed, DistinctGrants, Home;
    ChildWritesAreHome(strict, l, peers, p, q);
    ChildWritesAreHome(strict, l, peers, r, w);
    PrefixesCompare(Home(p), Home(r), q.key);
  }

  // ----- from grants -----

  function Rendered(scopes: seq<Scope>): seq<string> {
    seq(|scopes|, i requires 0 <= i < |scopes| => Render(scopes[i]))
  }

  /** The expression that the scope was read from is within the limit. */
  predicate Fits(s: Scope) {
    WellFormed(s) && |Render(s)| <= MAX_EXPRESSION
  }

  predicate AllFit(scopes: seq<Scope>) {
    forall s | s in scopes :: Fits(s)
  }

  function FromGrant(g: Grant, commonName: string, username: string, relationship: Relationship, quarantined: bool): PeerPolicy {
    PeerPolicy(g.id, g.subject, commonName, username, relationship, Render(g.namespace), Rendered(g.publish), Rendered(g.subscribe), quarantined)
  }

  lemma RenderedMembers(scopes: seq<Scope>, e: string)
    requires AllFit(scopes)
    ensures e in Rendered(scopes) <==> exists s | s in scopes :: e == Render(s)
    ensures e in Rendered(scopes) ==> Parse(e).Parsed? && Parse(e).scope in scopes
  {
    hide Parse, Render;
    if e in Rendered(scopes) {
      var i :| 0 <= i < |scopes| && e == Rendered(scopes)[i];
      assert scopes[i] in scopes;
      ParseInvertsRender(scopes[i], e);
    }
    if s :| s in scopes && e == Render(s) {
      var i :| 0 <= i < |scopes| && s == scopes[i];
      assert Rendered(scopes)[i] == e;
    }
  }

  /** Peers made of valid grants keep the contract, and are accepted by the constructor
      exactly when their names are. */
  lemma ValidGrantKeepsContract(g: Grant, commonName: string, username: string, relationship: Relationship, quarantined: bool)
    requires ValidGrant(g) && Fits(g.namespace) && AllFit(g.publish) && AllFit(g.subscribe)
    ensures KeepsContract(FromGrant(g, commonName, username, relationship, quarantined))
    ensures ValidPeer(FromGrant(g, commonName, username, relationship, quarantined)) <==> ValidNames(commonName, username)
  {
    hide Parse, Render, WellFormed;
    forall e | e in Rendered(g.subscribe)
      ensures Parse(e).Parsed?
    {
      RenderedMembers(g.subscribe, e);
    }
    ParseInvertsRender(g.namespace, Render(g.namespace));
    forall e | e in Rendered(g.publish)
      ensures Parse(e).Parsed? && Contains(g.namespace, Parse(e).scope)
    {
      RenderedMembers(g.publish, e);
    }
  }

  // ----- what a grant entitles to -----

  predicate InScopes(strict: bool, scopes: seq<Scope>, key: seq<string>) {
    exists s | s in scopes :: InExpression(strict, Render(s), key)
  }

  /** What a grant lets the link carry that it was given for: the link to a child that holds
      it, or to the parent that this router holds it from. Publishing goes away from the
      holder, what it subscribes to goes towards it, and so do configurations. */
  predicate GrantEntitles(strict: bool, g: Grant, toChild: bool, localNamespace: string, q: Request) {
    var towardsHolder := if toChild then q.flow.Egress? else q.flow.Ingress?;
    var base := if toChild then RemoveWildcard(Render(g.namespace)) else localNamespace;
    var published, received := InScopes(strict, g.publish, q.key), InScopes(strict, g.subscribe, q.key);
    match q.message
    case Put =>
      if towardsHolder
      then received || InExpression(strict, base + "/@config/v1", q.key) || InExpression(strict, base + "/@config/relay/v1", q.key)
      else published || InExpression(strict, base + "/@config/status/v1", q.key) || InExpression(strict, base + "/@topology", q.key)
    case Delete => !towardsHolder && published
    case Reply => towardsHolder && received
    case DeclareSubscriber =>
      if towardsHolder
      then published || InExpression(strict, base + "/@config/v1", q.key) || InExpression(strict, base + "/@config/relay/v1", q.key)
      else received
    case Query => if towardsHolder then published else received
    case _ => false
  }

  lemma RenderedKeys(strict: bool, scopes: seq<Scope>, key: seq<string>)
    ensures InAny(strict, Rendered(scopes), key) <==> InScopes(strict, scopes, key)
  {
    hide InExpression, Render;
    if e :| e in Rendered(scopes) && InExpression(strict, e, key) {
      var i :| 0 <= i < |scopes| && Rendered(scopes)[i] == e;
      assert scopes[i] in scopes;
    }
    if s :| s in scopes && InExpression(strict, Render(s), key) {
      var i :| 0 <= i < |scopes| && scopes[i] == s;
      assert Rendered(scopes)[i] == Render(s);
    }
  }

  /** The entitlement of a peer that was made of a grant is that of the grant. */
  lemma EntitledByGrant(strict: bool, g: Grant, commonName: string, username: string, relationship: Relationship, quarantined: bool,
                        id: string, localNamespace: string, q: Request)
    ensures var p := FromGrant(g, commonName, username, relationship, quarantined).(identity := id);
            Entitled(strict, p, localNamespace, q.message, q.flow, q.key)
            <==> GrantEntitles(strict, g, relationship.Child?, localNamespace, q)
  {
    RenderedKeys(strict, g.publish, q.key);
    RenderedKeys(strict, g.subscribe, q.key);
    var base := if relationship.Child? then RemoveWildcard(Render(g.namespace)) else localNamespace;
    TwoTopics(strict, base, "/@config/v1", "/@config/relay/v1", q.key);
    TwoTopics(strict, base, "/@config/status/v1", "/@topology", q.key);
    hide InExpression, InAny, InScopes, ControlKey, Render, Rendered, RemoveWildcard;
  }

  predicate GrantFits(g: Grant) {
    Fits(g.namespace) && AllFit(g.publish) && AllFit(g.subscribe)
  }

  lemma RenderedParses(s: Scope)
    requires WellFormed(s)
    ensures Parse(Render(s)).Parsed? <==> Fits(s)
  {
    ParseInvertsRender(s, Render(s));
  }

  lemma RenderedAllParse(scopes: seq<Scope>)
    requires forall s | s in scopes :: WellFormed(s)
    ensures (forall e | e in Rendered(scopes) :: Parse(e).Parsed?) <==> AllFit(scopes)
  {
    hide Parse, Render, WellFormed, Fits;
    forall s | s in scopes
      ensures Parse(Render(s)).Parsed? <==> Fits(s)
    {
      RenderedParses(s);
    }
    forall i | 0 <= i < |scopes|
      ensures Rendered(scopes)[i] == Render(scopes[i]) && Rendered(scopes)[i] in Rendered(scopes) && scopes[i] in scopes
    {}
    assert forall e | e in Rendered(scopes) :: exists i | 0 <= i < |scopes| :: e == Rendered(scopes)[i];
  }

  /** The constructor accepts the peer of a valid grant exactly for proper names and
      expressions within the limit. */
  lemma PeerIsValidExactly(g: Grant, commonName: string, username: string, relationship: Relationship, quarantined: bool)
    requires ValidGrant(g)
    ensures ValidPeer(FromGrant(g, commonName, username, relationship, quarantined)) <==>
            && 1 <= |commonName| <= 255 && (forall c | c in commonName :: SegmentChar(c) || c == '/')
            && 1 <= |username| <= 128 && (forall c | c in username :: SegmentChar(c))
            && GrantFits(g)
    ensures ValidPeer(FromGrant(g, commonName, username, relationship, quarantined)) ==> ValidNames(commonName, username)
    ensures ValidNames(commonName, username) && GrantFits(g) ==> ValidPeer(FromGrant(g, commonName, username, relationship, quarantined))
  {
    RenderedParses(g.namespace);
    RenderedAllParse(g.publish);
    RenderedAllParse(g.subscribe);
    hide Parse, Render, Fits, AllFit, Rendered, SegmentChar;
    var p := FromGrant(g, commonName, username, relationship, quarantined);
    assert forall e :: e in p.publish + p.subscribe <==> e in p.publish || e in p.subscribe;
  }

  lemma ContainedExpression(strict: bool, outer: string, inner: string, key: seq<string>)
    requires Parse(outer).Parsed? && Parse(inner).Parsed? && Contains(Parse(outer).scope, Parse(inner).scope)
    requires InExpression(strict, inner, key)
    ensures InExpression(strict, outer, key)
  {
    ScopeKeys(strict, outer, key);
    ScopeKeys(strict, inner, key);
    var o, i := Parse(outer).scope, Parse(inner).scope;
    SegmentsAreLiteral(i.parts);
    hide Parse, InExpression;
    if o.wildcard {
      assert o.parts == i.parts[..|o.parts|];
      assert o.parts <= key;
      forall c | c in key[|o.parts|..]
        ensures strict ==> !Verbatim(c)
      {
        var n :| |o.parts| <= n < |key| && key[n] == c;
        if n < |i.parts| {
          assert c == i.parts[n] && c in i.parts;
        } else {
          assert i.wildcard && key[|i.parts|..][n - |i.parts|] == c;
        }
      }
    }
  }

  /** Attenuation reaches the wire: what a narrower grant may publish or subscribe to, key
      by key, its issuer's grant may as well. */
  lemma NarrowerGrantNarrowerKeys(strict: bool, child: Grant, parent: Grant, key: seq<string>)
    requires GrantIsSubset(child, parent)
    requires AllFit(child.publish) && AllFit(parent.publish) && AllFit(child.subscribe) && AllFit(parent.subscribe)
    ensures InAny(strict, Rendered(child.publish), key) ==> InAny(strict, Rendered(parent.publish), key)
    ensures InAny(strict, Rendered(child.subscribe), key) ==> InAny(strict, Rendered(parent.subscribe), key)
  {
    CoveredKeys(strict, child.publish, parent.publish, key);
    CoveredKeys(strict, child.subscribe, parent.subscribe, key);
  }

  lemma CoveredKeys(strict: bool, requested: seq<Scope>, allowed: seq<Scope>, key: seq<string>)
    requires AllCovered(requested, allowed) && AllFit(requested) && AllFit(allowed)
    ensures InAny(strict, Rendered(requested), key) ==> InAny(strict, Rendered(allowed), key)
  {
    hide Parse, Render, InExpression, Contains;
    if e :| e in Rendered(requested) && InExpression(strict, e, key) {
      RenderedMembers(requested, e);
      var s := Parse(e).scope;
      var a :| a in allowed && Contains(a, s);
      var outer := Render(a);
      assert Fits(a);
      ParseInvertsRender(a, outer);
      RenderedMembers(allowed, outer);
      ContainedExpression(strict, outer, e, key);
    }
  }
}
