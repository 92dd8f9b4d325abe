/** The compiler from direct peers to an access-control document, and what the document
    means: which messages of which sessions it lets through. */
module AclPolicy {
  import opened Results
  import opened Text
  import opened KeyScope

  datatype Relationship = Child | Parent

  datatype PeerPolicy = PeerPolicy(
    grantId: string,
    identity: string,
    commonName: string,
    username: string,
    relationship: Relationship,
    namespace: string,
    publish: seq<string>,
    subscribe: seq<string>,
    quarantined: bool)

  predicate NameChar(c: char) {
    SegmentChar(c) || c == '/'
  }

  predicate ValidNames(commonName: string, username: string) {
    && 1 <= |commonName| <= 255 && (forall c | c in commonName :: NameChar(c))
    && 1 <= |username| <= 128 && (forall c | c in username :: SegmentChar(c))
  }

  /** What the constructor of a peer accepts. */
  predicate ValidPeer(p: PeerPolicy) {
    && ValidNames(p.commonName, p.username)
    && Parse(p.namespace).Parsed?
    && (forall e | e in p.publish + p.subscribe :: Parse(e).Parsed?)
  }

  // ----- the document -----

  datatype MessageKind =
    | Put | Delete | DeclareSubscriber | Query | DeclareQueryable | Reply
    | LivelinessToken | LivelinessQuery | DeclareLivelinessSubscriber

  datatype Flow = Ingress | Egress

  datatype Permission = Allow | Deny

  /** Identifiers of a peer's entries: a digest of its grant identifier and a suffix. The
      digest is taken to be free of collisions. */
  datatype Id = Local(name: string) | OfPeer(grantId: string, suffix: string)

  datatype Rule = Rule(id: Id, messages: set<MessageKind>, flows: set<Flow>, keys: set<string>, permission: Permission)

  /** None for a property that the subject does not mention. */
  datatype Subject = Subject(id: Id, protocols: Option<seq<string>>, commonNames: Option<seq<string>>, usernames: Option<seq<string>>)

  datatype Policy = Policy(id: Id, rules: seq<Id>, subjects: seq<Id>)

  datatype AccessControl = AccessControl(rules: seq<Rule>, subjects: seq<Subject>, policies: seq<Policy>)

  datatype AclError = BadScope | BadRoot | DuplicateUsername | DuplicateCommonName

  const ALL_MESSAGES := {Put, Delete, DeclareSubscriber, Query, DeclareQueryable, Reply,
                         LivelinessToken, LivelinessQuery, DeclareLivelinessSubscriber}

  datatype Definition = Definition(suffix: string, messages: set<MessageKind>, flows: set<Flow>, scopes: seq<string>)

  function Definitions(p: PeerPolicy, localNamespace: string): seq<Definition> {
    match p.relationship
    case Child =>
      var own := RemoveWildcard(p.namespace);
      [ Definition("publish", {Put, Delete}, {Ingress}, p.publish),
        Definition("publish-interest", {DeclareSubscriber, Query}, {Egress}, p.publish),
        Definition("subscribe-declare", {DeclareSubscriber, Query}, {Ingress}, p.subscribe),
        Definition("subscribe-deliver", {Put, Reply}, {Egress}, p.subscribe),
        Definition("control-in", {Put}, {Ingress}, [own + "/@config/status/v1", own + "/@topology"]),
        Definition("control-out", {Put, DeclareSubscriber}, {Egress}, [own + "/@config/v1", own + "/@config/relay/v1"]) ]
    case Parent =>
      [ Definition("own-publish", {Put, Delete}, {Egress}, p.publish),
        Definition("own-publish-interest", {DeclareSubscriber, Query}, {Ingress}, p.publish),
        Definition("approved-in", {Put, Reply}, {Ingress}, p.subscribe),
        Definition("approved-declare", {DeclareSubscriber, Query}, {Egress}, p.subscribe),
        Definition("control-in", {Put, DeclareSubscriber}, {Ingress},
                   [localNamespace + "/@config/v1", localNamespace + "/@config/relay/v1"]),
        Definition("control-out", {Put}, {Egress}, [localNamespace + "/@config/status/v1", localNamespace + "/@topology"]) ]
  }

  function Keys(scopes: seq<string>): set<string> {
    set e | e in scopes
  }

  function RuleOf(grantId: string, d: Definition): Rule {
    Rule(OfPeer(grantId, d.suffix), d.messages, d.flows, Keys(d.scopes), Allow)
  }

  /** A rule for each definition that has scopes. */
  function RulesFrom(grantId: string, defs: seq<Definition>): seq<Rule> {
    if defs == [] then []
    else
      var last := defs[|defs| - 1];
      RulesFrom(grantId, defs[..|defs| - 1]) + if last.scopes == [] then [] else [RuleOf(grantId, last)]
  }

  function RulesOf(p: PeerPolicy, localNamespace: string): seq<Rule> {
    if p.quarantined then [Rule(OfPeer(p.grantId, "quarantine"), ALL_MESSAGES, {Ingress, Egress}, {"**"}, Deny)]
    else RulesFrom(p.grantId, Definitions(p, localNamespace))
  }

  function SubjectOf(p: PeerPolicy): Subject {
    Subject(OfPeer(p.grantId, "identity"), None, Some([p.commonName]), if p.relationship.Child? then Some([p.username]) else None)
  }

  function Ids(rules: seq<Rule>): seq<Id> {
    seq(|rules|, i requires 0 <= i < |rules| => rules[i].id)
  }

  function PolicyOf(p: PeerPolicy, localNamespace: string): Policy {
    Policy(OfPeer(p.grantId, "policy"), Ids(RulesOf(p, localNamespace)), [OfPeer(p.grantId, "identity")])
  }

  datatype LocalSettings = LocalSettings(dataScope: string, inboundScope: string, federationRoot: string, namespace: string)

  function LocalRules(l: LocalSettings): seq<Rule> {
    [ Rule(Local("local-data"), {Put, Delete, DeclareSubscriber, Query, DeclareQueryable, Reply}, {Ingress, Egress}, {l.dataScope}, Allow),
      Rule(Local("local-inbound"), {Put, DeclareSubscriber, Query, Reply}, {Ingress, Egress}, {l.inboundScope}, Allow),
      Rule(Local("local-admin-read"), {Query, Reply}, {Ingress, Egress}, {"@/**"}, Allow),
      Rule(Local("local-federation"), {Put, DeclareSubscriber}, {Ingress, Egress},
           { l.federationRoot + "/**/@config/v1", l.federationRoot + "/**/@config/relay/v1",
             l.federationRoot + "/**/@config/status/v1", l.federationRoot + "/**/@topology" }, Allow) ]
  }

  const LOCAL_SUBJECT := Subject(Local("local-tcp"), Some(["tcp"]), None, None)

  function LocalPolicy(l: LocalSettings): Policy {
    Policy(Local("local-policy"), Ids(LocalRules(l)), [LOCAL_SUBJECT.id])
  }

  function PeerRules(peers: seq<PeerPolicy>, localNamespace: string): seq<Rule> {
    if peers == [] then []
    else PeerRules(peers[..|peers| - 1], localNamespace) + RulesOf(peers[|peers| - 1], localNamespace)
  }

  function PeerSubjects(peers: seq<PeerPolicy>): seq<Subject> {
    if peers == [] then [] else PeerSubjects(peers[..|peers| - 1]) + [SubjectOf(peers[|peers| - 1])]
  }

  function PeerPolicies(peers: seq<PeerPolicy>, localNamespace: string): seq<Policy> {
    if peers == [] then []
    else PeerPolicies(peers[..|peers| - 1], localNamespace) + [PolicyOf(peers[|peers| - 1], localNamespace)]
  }

  function Document(l: LocalSettings, peers: seq<PeerPolicy>): AccessControl {
    AccessControl(LocalRules(l) + PeerRules(peers, l.namespace),
                  [LOCAL_SUBJECT] + PeerSubjects(peers),
                  [LocalPolicy(l)] + PeerPolicies(peers, l.namespace))
  }

  // ----- the order of peers -----

  /** Python's order on strings. */
  predicate StringLess(a: string, b: string) {
    b != [] && (a == [] || a[0] < b[0] || (a[0] == b[0] && StringLess(a[1..], b[1..])))
  }

  /** Strictly before, by relationship and then identity: "child" sorts before "parent". */
  predicate Before(a: PeerPolicy, b: PeerPolicy) {
    if a.relationship != b.relationship then a.relationship.Child? else StringLess(a.identity, b.identity)
  }

  lemma {:induction false} StringLessTrichotomy(a: string, b: string)
    ensures !(StringLess(a, b) && StringLess(b, a))
    ensures a == b <==> !StringLess(a, b) && !StringLess(b, a)
  {
    if a != [] && b != [] {
      StringLessTrichotomy(a[1..], b[1..]);
      if a[0] == b[0] && a[1..] == b[1..] {
        assert a == [a[0]] + a[1..] && b == [b[0]] + b[1..];
      }
    }
  }

  lemma {:induction false} StringLessTransitive(a: string, b: string, c: string)
    requires StringLess(a, b) && StringLess(b, c)
    ensures StringLess(a, c)
  {
    if a != [] && a[0] == b[0] == c[0] {
      StringLessTransitive(a[1..], b[1..], c[1..]);
    }
  }

  /** One insertion of a stable sort: before the first element that it precedes. */
  function Insert(p: PeerPolicy, sorted: seq<PeerPolicy>): (r: seq<PeerPolicy>)
    ensures multiset(r) == multiset{p} + multiset(sorted)
  {
    if sorted == [] then [p]
    else if Before(sorted[0], p) then
      assert sorted == [sorted[0]] + sorted[1..];
      [sorted[0]] + Insert(p, sorted[1..])
    else [p] + sorted
  }

  /** Python's `sorted(peers, key=...)`. */
  function Sort(peers: seq<PeerPolicy>): (r: seq<PeerPolicy>)
    ensures multiset(r) == multiset(peers)
  {
    if peers == [] then []
    else
      assert peers == [peers[0]] + peers[1..];
      Insert(peers[0], Sort(peers[1..]))
  }

  predicate Sorted(s: seq<PeerPolicy>) {
    forall i, j | 0 <= i < j < |s| :: !Before(s[j], s[i])
  }

  lemma BeforeOrder(a: PeerPolicy, b: PeerPolicy, c: PeerPolicy)
    ensures !(Before(a, b) && Before(b, a))
    ensures !Before(b, a) && !Before(c, b) ==> !Before(c, a)
  {
    StringLessTrichotomy(a.identity, b.identity);
    StringLessTrichotomy(b.identity, c.identity);
    if StringLess(c.identity, a.identity) {
      if StringLess(a.identity, b.identity) {
        StringLessTransitive(c.identity, a.identity, b.identity);
      }
    }
  }

  lemma {:induction false} InsertSorts(p: PeerPolicy, sorted: seq<PeerPolicy>)
    requires Sorted(sorted)
    ensures Sorted(Insert(p, sorted))
  {
    if sorted != [] {
      if Before(sorted[0], p) {
        InsertSorts(p, sorted[1..]);
        BeforeOrder(sorted[0], p, p);
        var rest := Insert(p, sorted[1..]);
        forall j | 0 <= j < |rest|
          ensures !Before(rest[j], sorted[0])
        {
          assert rest[j] in multiset(rest);
          assert rest[j] == p || rest[j] in sorted[1..];
        }
      } else {
        forall j | 0 <= j < |sorted|
          ensures !Before(sorted[j], p)
        {
          BeforeOrder(p, sorted[0], sorted[j]);
        }
      }
    }
  }

  lemma {:induction false} SortSorts(peers: seq<PeerPolicy>)
    ensures Sorted(Sort(peers))
  {
    if peers != [] {
      SortSorts(peers[1..]);
      InsertSorts(peers[0], Sort(peers[1..]));
    }
  }

  /** No two peers have the same relationship and identity. */
  predicate DistinctIdentities(peers: multiset<PeerPolicy>) {
    forall p, q | p in peers && q in peers && p.relationship == q.relationship && p.identity == q.identity :: p == q
  }

  lemma HeadsAgree(s: seq<PeerPolicy>, t: seq<PeerPolicy>)
    requires |s| > 0 && |t| > 0 && s[0] in t && t[0] in s && Sorted(s) && Sorted(t)
    requires forall p | p in s && p.relationship == t[0].relationship && p.identity == t[0].identity :: p == t[0]
    ensures s[0] == t[0]
  {
    hide StringLess;
    StringLessTrichotomy(s[0].identity, t[0].identity);
    assert !Before(t[0], s[0]) && !Before(s[0], t[0]) by {
      hide Before;
      var i :| 0 <= i < |t| && t[i] == s[0];
      var j :| 0 <= j < |s| && s[j] == t[0];
      if i == 0 || j == 0 {
        BeforeOrder(s[0], t[0], t[0]);
      }
    }
  }

  lemma SortedTail(s: seq<PeerPolicy>)
    requires |s| > 0 && Sorted(s)
    ensures Sorted(s[1..]) && multiset(s[1..]) == multiset(s) - multiset{s[0]}
  {
    hide Before;
    assert s == [s[0]] + s[1..];
  }

  lemma HeadAndTail(s: seq<PeerPolicy>, t: seq<PeerPolicy>)
    requires |s| > 0 && |t| > 0 && s[0] == t[0] && s[1..] == t[1..]
    ensures s == t
  {}

  lemma {:induction false} SortedIsUnique(s: seq<PeerPolicy>, t: seq<PeerPolicy>)
    requires Sorted(s) && Sorted(t) && multiset(s) == multiset(t) && DistinctIdentities(multiset(s))
    ensures s == t
  {
    hide Sorted;
    if s == [] {
      assert |multiset(t)| == 0;
    } else {
      assert |multiset(s)| == |multiset(t)|;
      assert s[0] in multiset(t) && t[0] in multiset(s);
      HeadsAgree(s, t);
      SortedTail(s);
      SortedTail(t);
      SortedIsUnique(s[1..], t[1..]);
      HeadAndTail(s, t);
    }
  }

  // ----- compilation -----

  /** Two peers that one document cannot tell apart. */
  predicate Clash(a: PeerPolicy, b: PeerPolicy) {
    || a.commonName == b.commonName
    || (a.relationship.Child? && b.relationship.Child? && a.username == b.username)
  }

  predicate NoClash(s: seq<PeerPolicy>) {
    s != [] ==> (forall q | q in s[1..] :: !Clash(s[0], q)) && NoClash(s[1..])
  }

  /** The first conflict met in order, given the names seen so far. */
  function Conflict(s: seq<PeerPolicy>, usernames: set<string>, commonNames: set<string>): Option<AclError>
    decreases |s|
  {
    if s == [] then None
    else if s[0].relationship.Child? && s[0].username in usernames then Some(DuplicateUsername)
    else if s[0].commonName in commonNames then Some(DuplicateCommonName)
    else Conflict(s[1..], usernames + (if s[0].relationship.Child? then {s[0].username} else {}), commonNames + {s[0].commonName})
  }

  predicate LiteralRoot(root: string) {
    1 <= |root| <= 128 && forall c | c in root :: SegmentChar(c)
  }

  function Compiled(l: LocalSettings, peers: seq<PeerPolicy>): Result<AccessControl, AclError> {
    if Parse(l.dataScope).ScopeError? || Parse(l.inboundScope).ScopeError? then Err(BadScope)
    else if !LiteralRoot(l.federationRoot) then Err(BadRoot)
    else
      match Conflict(Sort(peers), {}, {})
      case Some(e) => Err(e)
      case None => Ok(Document(l, Sort(peers)))
  }

  lemma {:induction false} ConflictExact(s: seq<PeerPolicy>, usernames: set<string>, commonNames: set<string>)
    ensures Conflict(s, usernames, commonNames).None? <==>
            && NoClash(s)
            && forall p | p in s :: p.commonName !in commonNames && (p.relationship.Child? ==> p.username !in usernames)
    decreases |s|
  {
    if s != [] {
      var users := usernames + if s[0].relationship.Child? then {s[0].username} else {};
      var names := commonNames + {s[0].commonName};
      var rest := s[1..];
      ConflictExact(rest, users, names);
      assert s == [s[0]] + rest;
    }
  }

  lemma ClashSymmetric(a: PeerPolicy, b: PeerPolicy)
    ensures Clash(a, b) == Clash(b, a)
  {}

  lemma NoClashCons(p: PeerPolicy, rest: seq<PeerPolicy>)
    ensures NoClash([p] + rest) <==> NoClash(rest) && forall q | q in rest :: !Clash(p, q)
  {
    hide Clash;
    assert ([p] + rest)[1..] == rest;
  }

  lemma InsertHolds(p: PeerPolicy, sorted: seq<PeerPolicy>)
    ensures forall q :: q in Insert(p, sorted) <==> q == p || q in sorted
  {
    hide Insert;
    assert forall q :: q in Insert(p, sorted) <==> q in multiset(Insert(p, sorted));
  }

  lemma {:induction false} InsertClash(p: PeerPolicy, sorted: seq<PeerPolicy>)
    ensures NoClash(Insert(p, sorted)) <==> NoClash(sorted) && forall q | q in sorted :: !Clash(p, q)
  {
    hide Clash, Before, NoClash;
    if sorted != [] && Before(sorted[0], p) {
      var head, rest := sorted[0], sorted[1..];
      assert sorted == [head] + rest;
      InsertClash(p, rest);
      InsertHolds(p, rest);
      ClashSymmetric(p, head);
      NoClashCons(head, Insert(p, rest));
      NoClashCons(head, rest);
    } else {
      NoClashCons(p, sorted);
      assert sorted == [] ==> [p] + sorted == [p];
    }
  }

  lemma {:induction false} SortClash(peers: seq<PeerPolicy>)
    ensures NoClash(Sort(peers)) <==> NoClash(peers)
  {
    if peers != [] {
      SortClash(peers[1..]);
      InsertClash(peers[0], Sort(peers[1..]));
      assert peers == [peers[0]] + peers[1..];
      assert forall q :: q in Sort(peers[1..]) <==> q in multiset(peers[1..]);
    }
  }

  /** Compilation succeeds exactly for well-formed local settings and peers that can be
      told apart, in whatever order they are given. */
  lemma CompilesExactly(l: LocalSettings, peers: seq<PeerPolicy>)
    ensures Compiled(l, peers).Ok? <==>
            && Parse(l.dataScope).Parsed? && Parse(l.inboundScope).Parsed?
            && 1 <= |l.federationRoot| <= 128 && (forall c | c in l.federationRoot :: SegmentChar(c))
            && forall i, j | 0 <= i < j < |peers| ::
                 && peers[i].commonName != peers[j].commonName
                 && (peers[i].relationship.Child? && peers[j].relationship.Child? ==> peers[i].username != peers[j].username)
    ensures Compiled(l, peers).Ok? ==> NoClash(peers)
  {
    ConflictExact(Sort(peers), {}, {});
    SortClash(peers);
    ClashFreeInPairs(peers);
    hide NoClash, Sort, Parse, SegmentChar;
  }

  lemma {:induction false} ClashFreeInPairs(peers: seq<PeerPolicy>)
    ensures NoClash(peers) <==> forall i, j | 0 <= i < j < |peers| :: !Clash(peers[i], peers[j])
  {
    hide Clash;
    if peers != [] {
      var rest := peers[1..];
      ClashFreeInPairs(rest);
      assert forall i | 0 <= i < |rest| :: rest[i] == peers[i + 1] && rest[i] in rest;
      assert (forall q | q in rest :: !Clash(peers[0], q)) <==> forall j | 0 < j < |peers| :: !Clash(peers[0], peers[j]) by {
        assert forall j | 0 < j < |peers| :: peers[j] == rest[j - 1];
      }
    }
  }

  /** The document does not depend on the order in which the peers are given. */
  lemma OrderIndependent(l: LocalSettings, peers: seq<PeerPolicy>, shuffled: seq<PeerPolicy>)
    requires multiset(peers) == multiset(shuffled) && DistinctIdentities(multiset(peers))
    ensures Compiled(l, peers) == Compiled(l, shuffled)
  {
    SortSorts(peers);
    SortSorts(shuffled);
    SortedIsUnique(Sort(peers), Sort(shuffled));
  }

  lemma NoPeers(localNamespace: string)
    ensures PeerRules([], localNamespace) == [] && PeerSubjects([]) == [] && PeerPolicies([], localNamespace) == []
  {}

  lemma PeerStep(peers: seq<PeerPolicy>, i: nat, localNamespace: string)
    requires i < |peers|
    ensures PeerRules(peers[..i + 1], localNamespace) == PeerRules(peers[..i], localNamespace) + RulesOf(peers[i], localNamespace)
    ensures PeerSubjects(peers[..i + 1]) == PeerSubjects(peers[..i]) + [SubjectOf(peers[i])]
    ensures PeerPolicies(peers[..i + 1], localNamespace) == PeerPolicies(peers[..i], localNamespace) + [PolicyOf(peers[i], localNamespace)]
  {
    hide RulesOf, SubjectOf, PolicyOf;
    assert peers[..i + 1][..i] == peers[..i];
  }

  /** `compile_acl`. */
  method CompileAcl(l: LocalSettings, peers: seq<PeerPolicy>) returns (r: Result<AccessControl, AclError>)
    ensures r == Compiled(l, peers)
  {
    hide Parse, LiteralRoot, LocalRules, LocalPolicy, RulesOf, SubjectOf, Sort, PeerRules, PeerSubjects, PeerPolicies;
    NoPeers(l.namespace);
    if Parse(l.dataScope).ScopeError? || Parse(l.inboundScope).ScopeError? {
      return Err(BadScope);
    }
    if !LiteralRoot(l.federationRoot) {
      return Err(BadRoot);
    }
    var rules, subjects, policies := LocalRules(l), [LOCAL_SUBJECT], [LocalPolicy(l)];
    var usernames: set<string>, commonNames: set<string> := {}, {};
    var sorted := Sort(peers);
    for i := 0 to |sorted|
      invariant Conflict(sorted, {}, {}) == Conflict(sorted[i..], usernames, commonNames)
      invariant rules == LocalRules(l) + PeerRules(sorted[..i], l.namespace)
      invariant subjects == [LOCAL_SUBJECT] + PeerSubjects(sorted[..i])
      invariant policies == [LocalPolicy(l)] + PeerPolicies(sorted[..i], l.namespace)
    {
      var peer := sorted[i];
      assert sorted[i..][0] == peer && sorted[i..][1..] == sorted[i + 1..];
      PeerStep(sorted, i, l.namespace);
      if peer.relationship.Child? && peer.username in usernames {
        return Err(DuplicateUsername);
      }
      if peer.commonName in commonNames {
        return Err(DuplicateCommonName);
      }
      assert usernames + {} == usernames;
      if peer.relationship.Child? {
        usernames := usernames + {peer.username};
      }
      commonNames := commonNames + {peer.commonName};
      subjects := subjects + [SubjectOf(peer)];
      var peerRules := CompilePeer(peer, l.namespace);
      rules := rules + peerRules;
      policies := policies + [Policy(OfPeer(peer.grantId, "policy"), Ids(peerRules), [OfPeer(peer.grantId, "identity")])];
    }
    assert sorted[..|sorted|] == sorted && sorted[|sorted|..] == [];
    return Ok(AccessControl(rules, subjects, policies));
  }

  /** The rules of one peer. */
  method CompilePeer(peer: PeerPolicy, localNamespace: string) returns (rules: seq<Rule>)
    ensures rules == RulesOf(peer, localNamespace)
  {
    if peer.quarantined {
      return [Rule(OfPeer(peer.grantId, "quarantine"), ALL_MESSAGES, {Ingress, Egress}, {"**"}, Deny)];
    }
    rules := [];
    var defs := Definitions(peer, localNamespace);
    for j := 0 to |defs|
      invariant rules == RulesFrom(peer.grantId, defs[..j])
    {
      assert defs[..j + 1][..j] == defs[..j];
      if defs[j].scopes != [] {
        rules := rules + [RuleOf(peer.grantId, defs[j])];
      }
    }
    assert defs[..|defs|] == defs;
  }
}
