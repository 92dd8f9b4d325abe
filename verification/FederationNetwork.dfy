/** The federation as a whole: routers that register children, trust one parent, push,
    relay and apply configurations over a network that may duplicate, replay, reorder,
    drop or misdeliver anything, but cannot forge a signature. */
module FederationNetwork {
  import opened Results
  import opened Text
  import opened FederationCrypto
  import opened FederationRelay
  import opened PartnerName
  import opened RouterNames
  import FederationApply
  import FederationPaths

  /** What the routers do not decide: the organisation's prefix, the names of the routers there
      are, how a text parses, and the data prefix of each router. */
  datatype World = World(
    org: string,
    routers: set<Namespace>,
    parse: string -> Option<Template>,
    dataPrefix: Namespace -> string)

  /** A name that enrollment at a router of the federation can give to another. */
  predicate Enrollable(world: World, parent: Namespace, child: Namespace) {
    parent in world.routers && child in world.routers && CanEnroll(world.org, parent, child)
  }

  /** The name that a router reads out of a text, at its own data prefix. */
  function ReadName(world: World, n: Namespace, text: string): Option<Namespace> {
    match world.parse(text)
    case None => None
    case Some(t) => Some(NameIn(world.dataPrefix(n), t))
  }

  datatype Activation = Activation(node: Namespace, config: string, version: int)

  datatype Net = Net(
    trusts: map<Namespace, Namespace>,
    children: map<Namespace, set<Namespace>>,
    signed: set<Signature>,
    lastSeen: map<Namespace, int>,
    activations: seq<Activation>)

  function InitialNet(): Net {
    Net(map[], map[], {}, map[], [])
  }

  function Children(net: Net, n: Namespace): set<Namespace> {
    if n in net.children then net.children[n] else {}
  }

  predicate Trusts(net: Net, child: Namespace, parent: Namespace) {
    child in net.trusts && net.trusts[child] == parent
  }

  function LastSeen(net: Net, n: Namespace): int {
    if n in net.lastSeen then net.lastSeen[n] else -1
  }

  function CertOf(net: Net, n: Namespace, current: bool): ParentCert {
    if n in net.trusts then Cert(net.trusts[n], current) else NoCert
  }

  type Topology = map<Namespace, FederationPaths.Fact>

  /** Registration and trust come from enrollment, and do nothing for other names. A push names
      its target and, in its fields, a partner and the prefix and inbound
      namespace that its text is rendered with. */
  datatype Event =
    | RegisterChild(parent: Namespace, child: Namespace)
    | RemoveChild(parent: Namespace, child: Namespace)
    | InstallTrust(child: Namespace, parent: Namespace)
    | PushConfig(origin: Namespace, target: Namespace, partner: Namespace, prefix: string, inbound: string,
                 config: string, version: int, topology: Topology, now: int)
    | DeliverRelay(node: Namespace, envelope: Envelope, certCurrent: bool, lookupOk: bool, canSign: bool, canPut: bool, now: int)
    | DeliverConfig(node: Namespace, envelope: Envelope, certCurrent: bool, otherChecksPass: bool)
    | SignOther(node: Namespace, purpose: Purpose, payload: Payload)

  // ----- the origin -----

  /** The path of `_push_to_target`: a registered child directly, anything else as the
      topology suggests; refused unless it begins with a registered child. */
  function PushPath(net: Net, e: Event): Option<seq<Namespace>>
    requires e.PushConfig?
  {
    var path := if e.target in Children(net, e.origin) then Some([e.target])
                else FederationPaths.PathOf(e.origin, e.target, e.topology);
    if path.None? || path.value == [] || path.value[0] !in Children(net, e.origin) then None else path
  }

  predicate Accepted(net: Net, e: Event)
    requires e.PushConfig?
  {
    e.partner == e.target && PushPath(net, e).Some? && Utf8Length(e.config) <= MAX_CONFIG_BYTES && e.version >= 0
  }

  function PushMessage(e: Event, path: seq<Namespace>): Message
    requires e.PushConfig? && |path| >= 1
  {
    if |path| == 1 then
      var p := Payload(None, Some(e.config), Some(e.version), e.now);
      Message(ConfigTopic(e.target), p, Signed(e.origin, ConfigPurpose, p))
    else RelayStart(e.origin, path, e.config, e.version, e.now)
  }

  /** When an origin signs a push: for a target that is its registered child, or one below it that
      the topology leads to by way of a registered child. */
  predicate Reaches(net: Net, e: Event, path: seq<Namespace>)
    requires e.PushConfig?
  {
    if e.target in Children(net, e.origin) then path == [e.target]
    else
      && e.target != e.origin && FederationPaths.LeadsDown(e.topology, e.origin, e.target, path)
      && path[0] in Children(net, e.origin)
  }

  lemma PushPathExactly(net: Net, e: Event, path: seq<Namespace>)
    requires e.PushConfig?
    ensures PushPath(net, e) == Some(path) <==> Reaches(net, e, path)
  {
    if e.target !in Children(net, e.origin) && e.target != e.origin {
      FederationPaths.PathIsTheDownPath(e.origin, e.target, e.topology, path);
    }
  }

  /** A push is accepted exactly when its partner is its target, text and version are in range,
      and the origin reaches the target. */
  lemma AcceptedExactly(net: Net, e: Event)
    requires e.PushConfig?
    ensures Accepted(net, e) <==>
            && e.partner == e.target && Utf8Length(e.config) <= 256 * 1024 && 0 <= e.version
            && exists path :: Reaches(net, e, path)
    ensures Accepted(net, e) ==> PushPath(net, e).Some? && Reaches(net, e, PushPath(net, e).value)
  {
    hide Reaches, PushPath, Utf8Length;
    if PushPath(net, e).Some? {
      PushPathExactly(net, e, PushPath(net, e).value);
    }
    if path :| Reaches(net, e, path) {
      PushPathExactly(net, e, path);
    }
  }

  /** The path of a relayed push lies in the topology. */
  lemma RelayedPathIsKnown(net: Net, e: Event)
    requires e.PushConfig? && Accepted(net, e) && |PushPath(net, e).value| >= 2
    ensures forall n | n in PushPath(net, e).value :: n in e.topology
  {
    hide Utf8Length;
    FederationPaths.PathIsKnown(e.origin, e.target, e.topology);
  }

  /** What it signs: the text and version, for the configuration topic of a child or, with the
      path, for the relay topic of the first router on the way. */
  lemma SignsExactly(net: Net, e: Event)
    requires e.PushConfig?
    ensures Emitted(net, e).Some? <==> Accepted(net, e)
    ensures Accepted(net, e) ==>
      var path, direct := PushPath(net, e).value, |PushPath(net, e).value| == 1;
      var p := Payload(if direct then None else Some(path), Some(e.config), Some(e.version), e.now);
      && Emitted(net, e) == Some(Signed(e.origin, if direct then ConfigPurpose else RelayPurpose, p))
      && PushMessage(e, path) == Message(if direct then ConfigTopic(e.target) else RelayTopic(path[0]), p, Emitted(net, e).value)
  {
    hide Utf8Length;
    if Accepted(net, e) {
      PathEndsAtTarget(net, e);
    }
  }

  // ----- relay and target -----

  /** What the network can present: anything whose signature somebody really made. */
  predicate Presentable(net: Net, e: Envelope) {
    e.Envelope? ==> e.signature.Forged? || e.signature in net.signed
  }

  function ContextOf(net: Net, e: Event): Context
    requires e.DeliverRelay?
  {
    Context(e.node, CertOf(net, e.node, e.certCurrent), if e.lookupOk then Some(Children(net, e.node)) else None,
            e.canSign, e.canPut, e.now)
  }

  /** The relay or configuration statement that an event makes some router sign. */
  function Emitted(net: Net, e: Event): Option<Signature> {
    match e
    case PushConfig(_, _, _, _, _, _, _, _, _) =>
      if Accepted(net, e) then Some(PushMessage(e, PushPath(net, e).value).signature) else None
    case DeliverRelay(_, _, _, _, _, _, _) =>
      if !Presentable(net, e.envelope) then None
      else (match Relay(ContextOf(net, e), e.envelope) case Forwarded(m) => Some(m.signature) case _ => None)
    case _ => None
  }

  function ApplyConfig(world: World, net: Net, e: Event): Net
    requires e.DeliverConfig?
  {
    if !Presentable(net, e.envelope) then net
    else
      match FederationApply.Receive(CertOf(net, e.node, e.certCurrent), LastSeen(net, e.node), e.envelope)
      case Fresh(version, config) =>
        var recorded := net.(lastSeen := net.lastSeen[e.node := version]);
        if ReadName(world, e.node, config) == Some(e.node) && e.otherChecksPass
        then recorded.(activations := net.activations + [Activation(e.node, config, version)])
        else recorded
      case _ => net
  }

  function Apply(world: World, net: Net, e: Event): Net {
    match e
    case RegisterChild(p, c) =>
      if Enrollable(world, p, c) then net.(children := net.children[p := Children(net, p) + {c}]) else net
    case RemoveChild(p, c) => net.(children := net.children[p := Children(net, p) - {c}])
    case InstallTrust(c, p) => if Enrollable(world, p, c) then net.(trusts := net.trusts[c := p]) else net
    case DeliverConfig(_, _, _, _) => ApplyConfig(world, net, e)
    case SignOther(n, purpose, p) =>
      if purpose.StatusPurpose? || purpose.TopologyPurpose? then net.(signed := net.signed + {Signed(n, purpose, p)}) else net
    case _ =>
      (match Emitted(net, e) case Some(s) => net.(signed := net.signed + {s}) case None => net)
  }

  function Run(world: World, events: seq<Event>): Net
    decreases events
  {
    if events == [] then InitialNet()
    else Apply(world, Run(world, events[..|events| - 1]), events[|events| - 1])
  }

  /** The network before the k-th event of a run. */
  function Before(world: World, events: seq<Event>, k: nat): Net
    requires k <= |events|
  {
    Run(world, events[..k])
  }

  // ----- tracing statements back to pushes -----

  datatype Push = Push(origin: Namespace, target: Namespace, path: seq<Namespace>, config: string, version: int)

  function Route(push: Push): seq<Namespace> {
    [push.origin] + push.path
  }

  predicate PushedBy(net: Net, e: Event, push: Push) {
    && e.PushConfig? && Accepted(net, e)
    && push == Push(e.origin, e.target, PushPath(net, e).value, e.config, e.version)
  }

  /** The i-th statement of a push: a relay statement with the rest of the path, or the
      configuration itself at the last hop. */
  predicate Statement(push: Push, i: nat, s: Signature) {
    && i < |push.path| && s.Signed? && s.signer == Route(push)[i]
    && s.payload.config == Some(push.config) && s.payload.version == Some(push.version)
    && (if i == |push.path| - 1 then s.purpose == ConfigPurpose
        else s.purpose == RelayPurpose && s.payload.path == Some(push.path[i..]))
  }

  /** The i-th router of a push signs its statement; when it does, the next router is a
      registered child of its, and it trusts the router before it. */
  ghost predicate Hop(net: Net, e: Event, push: Push, i: nat, s: Signature) {
    && Emitted(net, e) == Some(s) && Statement(push, i, s)
    && push.path[i] in Children(net, Route(push)[i])
    && (i > 0 ==> Trusts(net, Route(push)[i], Route(push)[i - 1]))
  }

  ghost predicate HopAt(world: World, events: seq<Event>, push: Push, i: nat, k: nat) {
    k < |events| && exists s :: Hop(Before(world, events, k), events[k], push, i, s)
  }

  /** The first hops of a push were made, one after the other, at the given times. */
  ghost predicate Chain(world: World, events: seq<Event>, push: Push, times: seq<nat>) {
    && 1 <= |times| <= |push.path|
    && (forall i | 0 <= i < |times| :: HopAt(world, events, push, i, times[i]))
    && (forall i, j | 0 <= i < j < |times| :: times[i] < times[j])
    && PushedBy(Before(world, events, times[0]), events[times[0]], push)
  }

  ghost predicate Traced(world: World, events: seq<Event>, push: Push, times: seq<nat>, s: Signature) {
    Chain(world, events, push, times) && Statement(push, |times| - 1, s)
  }

  ghost predicate HasTrace(world: World, events: seq<Event>, s: Signature) {
    exists push: Push, times: seq<nat> :: Traced(world, events, push, times, s)
  }

  predicate Matters(s: Signature) {
    s.Signed? && (s.purpose == RelayPurpose || s.purpose == ConfigPurpose)
  }

  /** An activation comes from a push: all its hops were made, the last of them by the
      parent that the router trusts when the configuration arrives, and the router reads its
      own name out of the text. */
  ghost predicate From(world: World, events: seq<Event>, push: Push, times: seq<nat>, d: nat, a: Activation) {
    && Chain(world, events, push, times) && |times| == |push.path|
    && times[|times| - 1] < d < |events|
    && events[d].DeliverConfig? && events[d].node == a.node
    && Trusts(Before(world, events, d), a.node, Route(push)[|push.path| - 1])
    && push.config == a.config && push.version == a.version
    && ReadName(world, a.node, a.config) == Some(a.node)
  }

  ghost predicate Explained(world: World, events: seq<Event>, a: Activation) {
    exists push: Push, times: seq<nat>, d: nat :: From(world, events, push, times, d, a)
  }

  /** And it was meant for this very router. */
  ghost predicate Authorised(world: World, events: seq<Event>, a: Activation) {
    exists push: Push, times: seq<nat>, d: nat :: From(world, events, push, times, d, a) && push.target == a.node
  }

  lemma BeforeGrows(world: World, events: seq<Event>, e: Event, k: nat)
    requires k <= |events|
    ensures Before(world, events + [e], k) == Before(world, events, k)
    ensures k < |events| ==> (events + [e])[k] == events[k]
  {
    assert (events + [e])[..k] == events[..k];
  }

  lemma HopGrows(world: World, events: seq<Event>, e: Event, push: Push, i: nat, k: nat)
    requires HopAt(world, events, push, i, k)
    ensures HopAt(world, events + [e], push, i, k)
  {
    BeforeGrows(world, events, e, k);
  }

  lemma ChainGrows(world: World, events: seq<Event>, e: Event, push: Push, times: seq<nat>)
    requires Chain(world, events, push, times)
    ensures Chain(world, events + [e], push, times)
  {
    hide Hop, PushedBy, Before;
    forall i | 0 <= i < |times|
      ensures HopAt(world, events + [e], push, i, times[i])
    {
      HopGrows(world, events, e, push, i, times[i]);
    }
    assert HopAt(world, events, push, 0, times[0]);
    BeforeGrows(world, events, e, times[0]);
  }

  lemma TraceGrows(world: World, events: seq<Event>, e: Event, s: Signature)
    requires HasTrace(world, events, s)
    ensures HasTrace(world, events + [e], s)
  {
    var push, times :| Traced(world, events, push, times, s);
    hide Chain, Statement;
    ChainGrows(world, events, e, push, times);
    assert Traced(world, events + [e], push, times, s);
  }

  lemma ExplanationGrows(world: World, events: seq<Event>, e: Event, a: Activation)
    requires Explained(world, events, a)
    ensures Explained(world, events + [e], a)
  {
    hide Chain, Before, ReadName;
    var push, times, d: nat :| From(world, events, push, times, d, a);
    ChainGrows(world, events, e, push, times);
    BeforeGrows(world, events, e, d);
    assert From(world, events + [e], push, times, d, a);
  }

  // ----- every step keeps statements traced -----

  lemma PathEndsAtTarget(net: Net, e: Event)
    requires e.PushConfig? && Accepted(net, e)
    ensures var path := PushPath(net, e).value;
            |path| >= 1 && path[|path| - 1] == e.target && path[0] in Children(net, e.origin)
  {
    if e.target !in Children(net, e.origin) && e.target != e.origin {
      var parents := FederationPaths.Parents(e.topology);
      FederationPaths.PathIsExact(parents, e.origin, e.target);
      FederationPaths.DownPathEnds(parents, e.origin, e.target, PushPath(net, e).value);
    }
  }

  lemma PushIsHop(net: Net, e: Event, push: Push)
    requires PushedBy(net, e, push)
    ensures Emitted(net, e).Some? && Hop(net, e, push, 0, Emitted(net, e).value)
  {
    var path := push.path;
    assert path[0..] == path;
    var s := PushMessage(e, path).signature;
    hide Utf8Length;
    assert Statement(push, 0, s);
  }

  lemma PushIsTraced(world: World, events: seq<Event>, e: Event)
    requires e.PushConfig? && Accepted(Run(world, events), e)
    ensures HasTrace(world, events + [e], Emitted(Run(world, events), e).value)
  {
    var net := Run(world, events);
    var push := Push(e.origin, e.target, PushPath(net, e).value, e.config, e.version);
    PushIsHop(net, e, push);
    var s := Emitted(net, e).value;
    var n := |events|;
    assert (events + [e])[..n] == events && (events + [e])[n] == e;
    assert Statement(push, 0, s);
    hide Run, Accepted, PushPath, Emitted, Hop, PushedBy, Statement;
    assert Hop(Before(world, events + [e], n), e, push, 0, s) && PushedBy(Before(world, events + [e], n), e, push);
    assert HopAt(world, events + [e], push, 0, n);
    assert Traced(world, events + [e], push, [n], s);
  }

  /** A verified statement of the trusted parent is traced, and the parent made it. */
  lemma ParentStatement(world: World, events: seq<Event>, node: Namespace, current: bool, e: Envelope, purpose: Purpose)
    returns (push: Push, times: seq<nat>)
    requires purpose == RelayPurpose || purpose == ConfigPurpose
    requires forall s | s in Run(world, events).signed && Matters(s) :: HasTrace(world, events, s)
    requires Presentable(Run(world, events), e) && Verify(e, CertOf(Run(world, events), node, current), purpose).Some?
    ensures Traced(world, events, push, times, e.signature)
    ensures e.signature.Signed? && e.signature.purpose == purpose && e.signature.payload == e.payload
    ensures Trusts(Run(world, events), node, e.signature.signer)
  {
    hide Traced, Run;
    assert Matters(e.signature) && HasTrace(world, events, e.signature);
    push, times :| Traced(world, events, push, times, e.signature);
  }

  /** What a relay forwards is the next statement of the same push. */
  lemma NextStatement(net: Net, e: Event, push: Push, i: nat)
    requires e.DeliverRelay? && Presentable(net, e.envelope) && Relay(ContextOf(net, e), e.envelope).Forwarded?
    requires Statement(push, i, e.envelope.signature) && e.envelope.signature.purpose == RelayPurpose
    requires Trusts(net, e.node, e.envelope.signature.signer) && e.envelope.signature.payload == e.envelope.payload
    ensures i + 1 < |push.path|
    ensures Hop(net, e, push, i + 1, Emitted(net, e).value)
  {
    var path := e.envelope.payload.path.value;
    assert path[0] == push.path[i] && path[1] == push.path[i + 1];
    assert path[1..] == push.path[i + 1..];
  }

  lemma RelayIsTraced(world: World, events: seq<Event>, e: Event)
    requires forall s | s in Run(world, events).signed && Matters(s) :: HasTrace(world, events, s)
    requires e.DeliverRelay? && Emitted(Run(world, events), e).Some?
    ensures HasTrace(world, events + [e], Emitted(Run(world, events), e).value)
  {
    var net := Run(world, events);
    var n := |events|;
    var push, times := ParentStatement(world, events, e.node, e.certCurrent, e.envelope, RelayPurpose);
    var i := |times| - 1;
    NextStatement(net, e, push, i);
    var s := Emitted(net, e).value;
    ChainGrows(world, events, e, push, times);
    ChainExtends(world, events, e, push, times, s);
  }

  lemma ChainAppend(world: World, events: seq<Event>, push: Push, times: seq<nat>, n: nat)
    requires Chain(world, events, push, times) && |times| < |push.path| && HopAt(world, events, push, |times|, n)
    requires forall i | 0 <= i < |times| :: times[i] < n
    ensures Chain(world, events, push, times + [n])
  {
    hide HopAt, PushedBy, Before;
    var longer := times + [n];
    forall i | 0 <= i < |longer|
      ensures HopAt(world, events, push, i, longer[i])
    {
      assert i < |times| ==> HopAt(world, events, push, i, times[i]);
    }
  }

  lemma TimesPassed(world: World, events: seq<Event>, push: Push, times: seq<nat>)
    requires Chain(world, events, push, times)
    ensures forall i | 0 <= i < |times| :: times[i] < |events|
  {
    forall i | 0 <= i < |times|
      ensures times[i] < |events|
    {
      assert HopAt(world, events, push, i, times[i]);
    }
  }

  lemma NewHop(world: World, events: seq<Event>, e: Event, push: Push, i: nat, s: Signature)
    requires Hop(Run(world, events), e, push, i, s)
    ensures HopAt(world, events + [e], push, i, |events|)
  {
    var all, n := events + [e], |events|;
    assert all[..n] == events && all[n] == e;
    hide Run, Hop;
    assert Hop(Before(world, all, n), all[n], push, i, s);
  }

  lemma TraceIntro(world: World, events: seq<Event>, push: Push, times: seq<nat>, s: Signature)
    requires Chain(world, events, push, times) && Statement(push, |times| - 1, s)
    ensures HasTrace(world, events, s)
  {
    hide Chain, Statement;
    assert Traced(world, events, push, times, s);
  }

  lemma HopStates(net: Net, e: Event, push: Push, i: nat, s: Signature)
    requires Hop(net, e, push, i, s)
    ensures Statement(push, i, s)
  {
    hide Statement, Emitted;
  }

  lemma ChainExtends(world: World, events: seq<Event>, e: Event, push: Push, times: seq<nat>, s: Signature)
    requires Chain(world, events, push, times) && |times| < |push.path|
    requires Hop(Run(world, events), e, push, |times|, s)
    ensures HasTrace(world, events + [e], s)
  {
    hide *;
    HopStates(Run(world, events), e, push, |times|, s);
    ChainGrows(world, events, e, push, times);
    TimesPassed(world, events, push, times);
    NewHop(world, events, e, push, |times|, s);
    var longer := times + [|events|];
    ChainAppend(world, events + [e], push, times, |events|);
    assert |longer| - 1 == |times|;
    TraceIntro(world, events + [e], push, longer, s);
  }

  lemma SignedGrows(world: World, net: Net, e: Event, s: Signature)
    requires s in Apply(world, net, e).signed && Matters(s)
    ensures s in net.signed || Emitted(net, e) == Some(s)
  {
    hide Relay, ReadName;
  }

  /** Every relay or configuration statement that was ever signed is traced to a push. */
  lemma {:induction false} StatementsAreTraced(world: World, events: seq<Event>, s: Signature)
    requires s in Run(world, events).signed && Matters(s)
    ensures HasTrace(world, events, s)
    decreases events
  {
    if events != [] {
      hide HasTrace, Apply, Emitted;
      var n := |events| - 1;
      var shorter, e := events[..n], events[n];
      assert events == shorter + [e];
      forall t | t in Run(world, shorter).signed && Matters(t)
        ensures HasTrace(world, shorter, t)
      {
        StatementsAreTraced(world, shorter, t);
      }
      SignedGrows(world, Run(world, shorter), e, s);
      if s in Run(world, shorter).signed {
        TraceGrows(world, shorter, e, s);
      } else {
        EmittedIsTraced(world, shorter, e);
      }
    }
  }

  lemma EmittedIsTraced(world: World, events: seq<Event>, e: Event)
    requires forall s | s in Run(world, events).signed && Matters(s) :: HasTrace(world, events, s)
    requires Emitted(Run(world, events), e).Some?
    ensures HasTrace(world, events + [e], Emitted(Run(world, events), e).value)
  {
    hide HasTrace, Run;
    if e.PushConfig? {
      PushIsTraced(world, events, e);
    } else {
      RelayIsTraced(world, events, e);
    }
  }

  /** A delivered relay envelope makes a router sign exactly when somebody signed it and, by the
      parent and the children that the router has, it is to be passed on. */
  lemma RelaysExactly(net: Net, e: Event)
    requires e.DeliverRelay?
    ensures Emitted(net, e).Some? <==>
            && Presentable(net, e.envelope) && e.envelope.Envelope? && e.envelope.rawBytes <= MAX_ENVELOPE_BYTES
            && e.lookupOk && e.canSign && e.canPut && e.certCurrent && e.node in net.trusts
            && e.envelope.signature == Signed(net.trusts[e.node], RelayPurpose, e.envelope.payload)
            && WellFormedRelay(e.envelope.payload, e.node)
            && e.envelope.payload.path.value[1] in Children(net, e.node)
    ensures Emitted(net, e).Some? ==>
            var p, s := e.envelope.payload, Emitted(net, e).value;
            && s.Signed? && s.signer == e.node && s.payload.config == p.config && s.payload.version == p.version
            && s.payload.signedAt == e.now
            && (if |p.path.value| == 2 then s.purpose == ConfigPurpose && s.payload.path.None?
                else s.purpose == RelayPurpose && s.payload.path == Some(p.path.value[1..]))
  {
    RelayExactly(ContextOf(net, e), e.envelope);
    hide Relay, Utf8Length;
  }

  // ----- activations -----

  /** A delivered configuration that its receiver has to take up: signed as one by the parent
      that the receiver trusts, whose certificate is current, complete, and newer than any that
      the receiver has recorded. */
  predicate TakenUp(net: Net, e: Event)
    requires e.DeliverConfig?
  {
    && e.envelope.Envelope? && e.node in net.trusts && e.certCurrent
    && e.envelope.signature == Signed(net.trusts[e.node], ConfigPurpose, e.envelope.payload)
    && e.envelope.payload.config.Some? && e.envelope.payload.version.Some?
    && 0 <= e.envelope.payload.version.value && LastSeen(net, e.node) < e.envelope.payload.version.value
  }

  /** What a delivered configuration makes a router do: it records the version exactly when it
      takes the configuration up, and activates the text exactly when this also names the router
      and nothing else is wrong. */
  lemma ActivatesExactly(world: World, net: Net, e: Event)
    requires e.DeliverConfig? && Presentable(net, e.envelope)
    ensures var after := Apply(world, net, e);
            && after.signed == net.signed && after.children == net.children && after.trusts == net.trusts
            && (if TakenUp(net, e)
                then
                  var p := e.envelope.payload;
                  && after.lastSeen == net.lastSeen[e.node := p.version.value]
                  && after.activations ==
                     if ReadName(world, e.node, p.config.value) == Some(e.node) && e.otherChecksPass
                     then net.activations + [Activation(e.node, p.config.value, p.version.value)] else net.activations
                else after == net)
  {
    FederationApply.ReceiveExactly(CertOf(net, e.node, e.certCurrent), LastSeen(net, e.node), e.envelope);
  }

  lemma NewActivation(world: World, events: seq<Event>, e: Event)
    requires Apply(world, Run(world, events), e).activations != Run(world, events).activations
    ensures var net := Run(world, events);
            && Apply(world, net, e).activations == net.activations + [Apply(world, net, e).activations[|net.activations|]]
            && Explained(world, events + [e], Apply(world, net, e).activations[|net.activations|])
  {
    var net := Run(world, events);
    hide ReadName, Verify, Run;
    assert e.DeliverConfig?;
    ActivatesExactly(world, net, e);
    FederationApply.ReceiveExactly(CertOf(net, e.node, e.certCurrent), LastSeen(net, e.node), e.envelope);
    var a := Apply(world, net, e).activations[|net.activations|];
    DeliveredIsExplained(world, events, e, a);
  }

  lemma DeliveredIsExplained(world: World, events: seq<Event>, e: Event, a: Activation)
    requires e.DeliverConfig? && Presentable(Run(world, events), e.envelope) && a.node == e.node
    requires FederationApply.Receive(CertOf(Run(world, events), e.node, e.certCurrent), LastSeen(Run(world, events), e.node), e.envelope)
             == FederationApply.Fresh(a.version, a.config)
    requires ReadName(world, e.node, a.config) == Some(e.node)
    ensures Explained(world, events + [e], a)
  {
    var all, n := events + [e], |events|;
    forall s | s in Run(world, events).signed && Matters(s)
      ensures HasTrace(world, events, s)
    {
      StatementsAreTraced(world, events, s);
    }
    hide HasTrace, Run, ReadName, Chain;
    var push, times := ParentStatement(world, events, e.node, e.certCurrent, e.envelope, ConfigPurpose);
    assert Statement(push, |times| - 1, e.envelope.signature);
    TimesPassed(world, events, push, times);
    ChainGrows(world, events, e, push, times);
    ChainFits(world, events, push, times);
    assert all[..n] == events && all[n] == e;
    assert From(world, all, push, times, n, a);
  }

  lemma ChainFits(world: World, events: seq<Event>, push: Push, times: seq<nat>)
    requires Chain(world, events, push, times)
    ensures 1 <= |times| <= |push.path|
  {}

  /** Whatever the network does, each activation is explained by a push. */
  lemma {:induction false} ActivationsAreExplained(world: World, events: seq<Event>, i: nat)
    requires i < |Run(world, events).activations|
    ensures Explained(world, events, Run(world, events).activations[i])
    decreases events
  {
    hide Explained, Apply;
    if events != [] {
      var n := |events| - 1;
      var shorter, e := events[..n], events[n];
      var net := Run(world, shorter);
      assert events == shorter + [e];
      if i < |net.activations| {
        ActivationsAreExplained(world, shorter, i);
        ExplanationGrows(world, shorter, e, net.activations[i]);
      }
      if Apply(world, net, e).activations != net.activations {
        NewActivation(world, shorter, e);
      }
    }
  }

  // ----- names over a run -----

  /** Whoever is registered or trusted was enrolled under a proper name. */
  ghost predicate NamesHold(world: World, net: Net) {
    && (forall p, c | c in Children(net, p) :: Enrollable(world, p, c))
    && (forall c | c in net.trusts :: Enrollable(world, net.trusts[c], c))
  }

  lemma ApplyKeepsNames(world: World, net: Net, e: Event)
    requires NamesHold(world, net)
    ensures NamesHold(world, Apply(world, net, e))
  {
    hide Enrollable, Emitted, Accepted, Relay, ReadName;
  }

  lemma {:induction false} NamesOverRuns(world: World, events: seq<Event>)
    ensures NamesHold(world, Run(world, events))
    decreases events
  {
    if events != [] {
      hide NamesHold, Apply;
      var n := |events| - 1;
      NamesOverRuns(world, events[..n]);
      ApplyKeepsNames(world, Run(world, events[..n]), events[n]);
    }
  }

  // ----- safety -----

  /** The text of a push is what the template is rendered to for its fields. */
  predicate Rendered(world: World, e: Event) {
    e.PushConfig? ==> Strip(e.prefix) == e.prefix && world.parse(e.config) == Some(RenderedTemplate(e.prefix, e.partner, e.inbound))
  }

  /** Two routers that one parent can enroll. */
  predicate Siblings(world: World, a: Namespace, b: Namespace) {
    exists p | p in world.routers :: Enrollable(world, p, a) && Enrollable(world, p, b)
  }

  /** A push that its origin can send, and that a sibling of the target reads as its own. */
  predicate Misread(world: World, e: Event, n: Namespace) {
    && e.PushConfig? && e.partner == e.target
    && Utf8Length(e.config) <= MAX_CONFIG_BYTES && e.version >= 0
    && n != e.target && Siblings(world, n, e.target) && ReadName(world, n, e.config) == Some(n)
  }

  /** The router that activates and the target are both children of the last signer. */
  lemma ExplainedAreSiblings(world: World, events: seq<Event>, push: Push, times: seq<nat>, d: nat, a: Activation)
    requires From(world, events, push, times, d, a)
    ensures Siblings(world, a.node, push.target)
  {
    hide Run, Chain, Enrollable, ReadName;
    ChainFits(world, events, push, times);
    var p := Route(push)[|push.path| - 1];
    LastHopRegisters(world, events, push, times);
    TrustIsEnrolled(world, events, d, p, a.node);
    EnrollableIsThere(world, p, a.node);
  }

  lemma TrustIsEnrolled(world: World, events: seq<Event>, d: nat, p: Namespace, c: Namespace)
    requires d <= |events| && Trusts(Before(world, events, d), c, p)
    ensures Enrollable(world, p, c)
  {
    hide Run, Enrollable;
    NamesOverRuns(world, events[..d]);
  }

  lemma EnrollableIsThere(world: World, p: Namespace, c: Namespace)
    requires Enrollable(world, p, c)
    ensures p in world.routers && c in world.routers
  {}

  lemma LastHopRegisters(world: World, events: seq<Event>, push: Push, times: seq<nat>)
    requires Chain(world, events, push, times) && |times| == |push.path|
    ensures Enrollable(world, Route(push)[|push.path| - 1], push.target)
  {
    hide Run, Enrollable, Emitted, Statement;
    var i := |push.path| - 1;
    assert HopAt(world, events, push, i, times[i]);
    NamesOverRuns(world, events[..times[i]]);
    assert HopAt(world, events, push, 0, times[0]);
    PathEndsAtTarget(Before(world, events, times[0]), events[times[0]]);
  }

  lemma ExplainedIsAuthorised(world: World, events: seq<Event>, a: Activation)
    requires Explained(world, events, a)
    requires forall j | 0 <= j < |events| :: !Misread(world, events[j], a.node)
    ensures Authorised(world, events, a)
  {
    var push, times, d: nat :| From(world, events, push, times, d, a);
    ExplainedAreSiblings(world, events, push, times, d, a);
    hide Chain, ReadName, PushedBy, Siblings;
    ChainIsPushed(world, events, push, times);
    assert !Misread(world, events[times[0]], a.node);
  }

  lemma ChainIsPushed(world: World, events: seq<Event>, push: Push, times: seq<nat>)
    requires Chain(world, events, push, times)
    ensures |times| >= 1 && times[0] < |events| && PushedBy(Before(world, events, times[0]), events[times[0]], push)
    ensures var e := events[times[0]];
            && e.PushConfig? && e.partner == e.target == push.target && e.config == push.config
            && Utf8Length(e.config) <= MAX_CONFIG_BYTES && e.version >= 0
  {
    assert HopAt(world, events, push, 0, times[0]);
  }

  /** Relay safety, whatever the parents and children do meanwhile: when no push can be
      misread, each configuration that a router activates was pushed by an operator for exactly
      that router, with that text and version, and every hop was signed by a router that had
      the next one registered and trusted the one before. */
  lemma RelaySafety(world: World, events: seq<Event>, i: nat)
    requires i < |Run(world, events).activations|
    requires forall j | 0 <= j < |events| :: !Misread(world, events[j], Run(world, events).activations[i].node)
    ensures Authorised(world, events, Run(world, events).activations[i])
  {
    hide Explained, Authorised, Misread;
    ActivationsAreExplained(world, events, i);
    ExplainedIsAuthorised(world, events, Run(world, events).activations[i]);
  }

  // ----- when a push can be misread -----

  /** Two children of the origin, and a configuration for one that arrives at the other. */
  function MisdeliveredTo(e: Event, n: Namespace): seq<Event>
    requires e.PushConfig?
  {
    var p := Payload(None, Some(e.config), Some(e.version), e.now);
    var s := Signed(e.origin, ConfigPurpose, p);
    [RegisterChild(e.origin, e.target), RegisterChild(e.origin, n), InstallTrust(n, e.origin), e,
     DeliverConfig(n, Envelope(p, s, 0), true, true)]
  }

  lemma RunOneMore(world: World, events: seq<Event>, e: Event)
    ensures Run(world, events + [e]) == Apply(world, Run(world, events), e)
  {
    assert (events + [e])[..|events|] == events;
  }

  lemma RunOfFive(world: World, events: seq<Event>)
    requires |events| == 5
    ensures Run(world, events)
            == Apply(world, Apply(world, Apply(world, Apply(world, Apply(world, InitialNet(), events[0]), events[1]), events[2]), events[3]), events[4])
  {
    hide Apply;
    RunOneMore(world, [], events[0]);
    RunOneMore(world, events[..1], events[1]);
    RunOneMore(world, events[..2], events[2]);
    RunOneMore(world, events[..3], events[3]);
    RunOneMore(world, events[..4], events[4]);
    assert [] + [events[0]] == events[..1] && events[..1] + [events[1]] == events[..2] && events[..2] + [events[2]] == events[..3];
    assert events[..3] + [events[3]] == events[..4] && events[..4] + [events[4]] == events;
  }

  /** A misread push of the siblings' parent is activated by the wrong one as soon as it is
      misdelivered to it. */
  lemma MisreadIsActivated(world: World, e: Event, n: Namespace)
    requires Misread(world, e, n) && Enrollable(world, e.origin, e.target) && Enrollable(world, e.origin, n)
    ensures var events := MisdeliveredTo(e, n);
            Run(world, events).activations == [Activation(n, e.config, e.version)]
  {
    var events := MisdeliveredTo(e, n);
    var enrolled := Enrolled(world, e, n);
    RunOfFive(world, events);
    hide Run, Misread, Utf8Length, ReadName, Enrollable, FederationApply.Receive, PushMessage, Accepted;
    var sent := Apply(world, enrolled, e);
    assert Run(world, events) == Apply(world, sent, events[4]);
    MisreadIsSent(world, e, n);
    MisreadIsReceived(world, e, n, sent);
  }

  /** The network after the two children were enrolled. */
  function Enrolled(world: World, e: Event, n: Namespace): Net
    requires e.PushConfig?
  {
    Apply(world, Apply(world, Apply(world, InitialNet(), RegisterChild(e.origin, e.target)), RegisterChild(e.origin, n)), InstallTrust(n, e.origin))
  }

  lemma MisreadIsSent(world: World, e: Event, n: Namespace)
    requires Misread(world, e, n) && Enrollable(world, e.origin, e.target) && Enrollable(world, e.origin, n)
    ensures var sent := Apply(world, Enrolled(world, e, n), e);
            && Signed(e.origin, ConfigPurpose, Payload(None, Some(e.config), Some(e.version), e.now)) in sent.signed
            && Trusts(sent, n, e.origin) && LastSeen(sent, n) == -1 && sent.activations == []
  {
    hide Enrollable, ReadName, Siblings, Utf8Length;
  }

  lemma MisreadIsReceived(world: World, e: Event, n: Namespace, sent: Net)
    requires Misread(world, e, n) && Trusts(sent, n, e.origin) && LastSeen(sent, n) == -1 && sent.activations == []
    requires Signed(e.origin, ConfigPurpose, Payload(None, Some(e.config), Some(e.version), e.now)) in sent.signed
    ensures Apply(world, sent, MisdeliveredTo(e, n)[4]).activations == [Activation(n, e.config, e.version)]
  {
    hide Enrollable, ReadName, Siblings, Utf8Length;
  }

  /** Everything activated in a run was meant for the router that activated it. */
  ghost predicate AllAuthorised(world: World, events: seq<Event>) {
    forall i | 0 <= i < |Run(world, events).activations| :: Authorised(world, events, Run(world, events).activations[i])
  }

  /** The run of a misdelivered push has one activation, and nobody pushed it for that router. */
  lemma MisreadIsNotAuthorised(world: World, e: Event, n: Namespace)
    requires Misread(world, e, n) && Enrollable(world, e.origin, e.target) && Enrollable(world, e.origin, n)
    ensures !AllAuthorised(world, MisdeliveredTo(e, n))
  {
    assert e.PushConfig? && n != e.target;
    var events := MisdeliveredTo(e, n);
    var a := Activation(n, e.config, e.version);
    MisreadIsActivated(world, e, n);
    assert Run(world, events).activations[0] == a;
    hide Run, Misread, Chain, Enrollable, ReadName;
    NobodyPushedIt(world, e, n, a);
  }

  lemma NobodyPushedIt(world: World, e: Event, n: Namespace, a: Activation)
    requires e.PushConfig? && n != e.target && a.node == n
    ensures !Authorised(world, MisdeliveredTo(e, n), a)
  {
    var events := MisdeliveredTo(e, n);
    forall push: Push, times: seq<nat>, d: nat | From(world, events, push, times, d, a)
      ensures push.target != a.node
    {
      hide Run, Chain, ReadName, Utf8Length, PushedBy;
      ChainIsPushed(world, events, push, times);
    }
  }

  predicate AllRendered(world: World, events: seq<Event>) {
    forall j | 0 <= j < |events| :: Rendered(world, events[j])
  }

  lemma MisdeliveryIsRendered(world: World, e: Event, n: Namespace)
    requires e.PushConfig? && Rendered(world, e)
    ensures AllRendered(world, MisdeliveredTo(e, n))
  {}

  /** A push that can be misread, sent by the parent that both routers have. */
  lemma SentByParent(world: World, e: Event, n: Namespace) returns (from: Event)
    requires Rendered(world, e) && Misread(world, e, n)
    ensures Rendered(world, from) && Misread(world, from, n)
    ensures Enrollable(world, from.origin, from.target) && Enrollable(world, from.origin, n)
  {
    hide Enrollable, Utf8Length;
    var p :| p in world.routers && Enrollable(world, p, n) && Enrollable(world, p, e.target);
    from := e.(origin := p);
  }

  /** The exact condition for safety: every activation of every run of rendered pushes is
      authorised if and only if no rendered push can be misread by a sibling of its target. */
  lemma SafetyExactly(world: World)
    ensures (forall events: seq<Event> | AllRendered(world, events) :: AllAuthorised(world, events))
            <==> forall e: Event, n: Namespace | Rendered(world, e) :: !Misread(world, e, n)
  {
    hide Rendered, Misread, Run, Authorised, Enrollable;
    if forall e: Event, n: Namespace | Rendered(world, e) :: !Misread(world, e, n) {
      forall events: seq<Event> | AllRendered(world, events)
        ensures AllAuthorised(world, events)
      {
        forall i | 0 <= i < |Run(world, events).activations|
          ensures Authorised(world, events, Run(world, events).activations[i])
        {
          RelaySafety(world, events, i);
        }
      }
    }
    if e: Event, n: Namespace :| Rendered(world, e) && Misread(world, e, n) {
      var from := SentByParent(world, e, n);
      IsPush(world, from, n);
      MisreadIsNotAuthorised(world, from, n);
      MisdeliveryIsRendered(world, from, n);
    }
  }

  lemma IsPush(world: World, e: Event, n: Namespace)
    requires Misread(world, e, n)
    ensures e.PushConfig?
  {}

  // ----- what an operator can check -----

  /** No router of the federation reads its name out of a configuration that is rendered with
      this prefix for one of its siblings. */
  ghost predicate FleetSafe(world: World, prefix: string) {
    && Strip(prefix) == prefix
    && forall p, t, n | Enrollable(world, p, t) && Enrollable(world, p, n) && t != n :: NameAt(world.dataPrefix(n), prefix, t) != n
  }

  lemma InboundDoesNotMatter(q: string, prefix: string, partner: string, inbound: string)
    requires Strip(prefix) == prefix && Clean(partner)
    ensures NameIn(q, RenderedTemplate(prefix, partner, inbound)) == NameAt(q, prefix, partner)
  {
    CleanIsStripped(partner);
    NameIsRead(q, prefix, partner, inbound);
    NameIsRead(q, prefix, partner, "");
  }

  lemma SafePushIsNotMisread(world: World, e: Event, n: Namespace)
    requires Rendered(world, e) && (e.PushConfig? ==> FleetSafe(world, e.prefix))
    ensures !Misread(world, e, n)
  {
    hide NameIn, NameAt, Clean, Utf8Length, CanEnroll;
    if Misread(world, e, n) {
      var p :| p in world.routers && Enrollable(world, p, n) && Enrollable(world, p, e.target);
      EnrolledIsBelow(world.org, p, e.target);
      InboundDoesNotMatter(world.dataPrefix(n), e.prefix, e.partner, e.inbound);
    }
  }

  /** Safety from the operator's side: rendering with prefixes that are safe for the federation
      is enough. */
  lemma SafeFleetsAreAuthorised(world: World, events: seq<Event>)
    requires AllRendered(world, events)
    requires forall j | 0 <= j < |events| && events[j].PushConfig? :: FleetSafe(world, events[j].prefix)
    ensures AllAuthorised(world, events)
  {
    hide Run, Misread, Rendered, FleetSafe, Authorised;
    forall i | 0 <= i < |Run(world, events).activations|
      ensures Authorised(world, events, Run(world, events).activations[i])
    {
      forall j | 0 <= j < |events|
        ensures !Misread(world, events[j], Run(world, events).activations[i].node)
      {
        SafePushIsNotMisread(world, events[j], Run(world, events).activations[i].node);
      }
      RelaySafety(world, events, i);
    }
  }

  /** And it is necessary: otherwise there are siblings, and every push to one of them with that
      prefix is misread by the other. */
  lemma UnsafeFleetIsMisread(world: World, prefix: string) returns (t: Namespace, n: Namespace)
    requires Strip(prefix) == prefix && !FleetSafe(world, prefix)
    ensures Siblings(world, n, t) && t != n
    ensures forall e: Event | Rendered(world, e) && e.PushConfig? && e.partner == e.target == t && e.prefix == prefix
              && Utf8Length(e.config) <= MAX_CONFIG_BYTES && e.version >= 0 :: Misread(world, e, n)
  {
    hide NameAt, NameIn, Clean, CanEnroll, Utf8Length;
    var p, target, reader :| Enrollable(world, p, target) && Enrollable(world, p, reader) && target != reader
                             && NameAt(world.dataPrefix(reader), prefix, target) == reader;
    t, n := target, reader;
    EnrolledIsBelow(world.org, p, t);
    forall e: Event | Rendered(world, e) && e.PushConfig? && e.partner == e.target == t && e.prefix == prefix
              && Utf8Length(e.config) <= MAX_CONFIG_BYTES && e.version >= 0
      ensures Misread(world, e, n)
    {
      InboundDoesNotMatter(world.dataPrefix(n), prefix, t, e.inbound);
    }
  }

  /** Every router by itself: safe from all siblings that it might ever get. */
  ghost predicate EachSafe(world: World, prefix: string) {
    && (prefix == "" || Clean(prefix))
    && forall p, n | Enrollable(world, p, n) ::
         && (world.dataPrefix(n) == "" || Clean(world.dataPrefix(n)))
         && SafeAt(world.dataPrefix(n), prefix, p, n)
  }

  lemma EachSafeIsFleetSafe(world: World, prefix: string)
    requires EachSafe(world, prefix)
    ensures FleetSafe(world, prefix)
  {
    if prefix != "" {
      CleanIsStripped(prefix);
    }
    hide Clean, SafeAt, NameAt, CanEnroll, Strip;
    forall p, t, n | Enrollable(world, p, t) && Enrollable(world, p, n) && t != n
      ensures NameAt(world.dataPrefix(n), prefix, t) != n
    {
      EnrolledIsBelow(world.org, p, t);
      EnrolledIsBelow(world.org, p, n);
      SafeReadsNoOther(world.dataPrefix(n), prefix, p, n, t);
    }
  }

  /** The simplest such federation: one non-empty data prefix for all, and pushes rendered with it. */
  lemma OnePrefixIsSafe(world: World, prefix: string)
    requires Clean(prefix) && forall n | n in world.routers :: world.dataPrefix(n) == prefix
    ensures FleetSafe(world, prefix)
  {
    assert prefix != "";
    hide CanEnroll, Clean;
    EachSafeIsFleetSafe(world, prefix);
  }

  /** Without any prefix, a federation is safe exactly when no two children of an unnamed root
      end alike with one of them a single segment; under a named root it always is. */
  lemma PrefixFreeExactly(world: World)
    requires forall n | n in world.routers :: world.dataPrefix(n) == ""
    ensures FleetSafe(world, "") <==>
            forall t, n | Enrollable(world, "", t) && Enrollable(world, "", n) && t != n :: LastSegment(t) != n
    ensures "" !in world.routers ==> FleetSafe(world, "")
  {
    hide CanEnroll, NameAt, LastSegment, Clean, Strip;
    assert Strip("") == "" by {
      EmptyIsStripped();
    }
    forall p, t, n | Enrollable(world, p, t) && Enrollable(world, p, n)
      ensures NameAt(world.dataPrefix(n), "", t) == LastSegment(t)
      ensures p != "" ==> LastSegment(t) != n
    {
      EnrolledIsBelow(world.org, p, t);
      EnrolledIsBelow(world.org, p, n);
      PrefixFreeName(t);
      BelowHasSlash(p, n);
    }
  }

  lemma EmptyIsStripped()
    ensures Strip("") == ""
  {}

  lemma PrefixFreeName(t: string)
    requires Clean(t)
    ensures NameAt("", "", t) == LastSegment(t)
  {
    CleanIsStripped(t);
    NameIsRead("", "", t, "");
  }

  /** A run that goes wrong where data is published without a prefix: the unnamed root of the
      organisation enrolls "b" and "a/b", and "b" activates the configuration of the other. */
  lemma SlotRootMisdelivers(world: World, text: string)
    requires world.org == "EFDI" && {"", "a/b", "b"} <= world.routers
    requires world.dataPrefix("b") == "" && Utf8Length(text) <= MAX_CONFIG_BYTES
    requires world.parse(text) == Some(RenderedTemplate("", "a/b", "in"))
    ensures var e := PushConfig("", "a/b", "a/b", "", "in", text, 1, map[], 0);
            var events := MisdeliveredTo(e, "b");
            && Enrollable(world, "", "a/b") && Enrollable(world, "", "b")
            && AllRendered(world, events) && Run(world, events).activations == [Activation("b", text, 1)]
            && !AllAuthorised(world, events)
  {
    var e := PushConfig("", "a/b", "a/b", "", "in", text, 1, map[], 0);
    SlotNames();
    EmptyIsStripped();
    EmptyPrefixCutsTheName();
    hide Utf8Length, NameIn, Run, AllAuthorised, Clean, CanEnroll, Strip, NameAt;
    InboundDoesNotMatter("", "", "a/b", "in");
    assert Enrollable(world, "", "a/b") && Enrollable(world, "", "b");
    assert Misread(world, e, "b");
    MisreadIsActivated(world, e, "b");
    MisreadIsNotAuthorised(world, e, "b");
    MisdeliveryIsRendered(world, e, "b");
  }

  // ----- at most once -----

  /** Activations at one router have rising versions, none above the last one it recorded. */
  ghost predicate OncePerVersion(net: Net) {
    && (forall i | 0 <= i < |net.activations| :: net.activations[i].version <= LastSeen(net, net.activations[i].node))
    && (forall i, j | 0 <= i < j < |net.activations| && net.activations[i].node == net.activations[j].node ::
          net.activations[i].version < net.activations[j].version)
  }

  lemma ApplyIsOncePerVersion(world: World, net: Net, e: Event)
    requires OncePerVersion(net)
    ensures OncePerVersion(Apply(world, net, e))
  {
    hide Relay, Verify, PushMessage, ReadName, Emitted;
  }

  lemma {:induction false} RunIsOncePerVersion(world: World, events: seq<Event>)
    ensures OncePerVersion(Run(world, events))
    decreases events
  {
    if events != [] {
      hide OncePerVersion, Apply;
      var n := |events| - 1;
      RunIsOncePerVersion(world, events[..n]);
      ApplyIsOncePerVersion(world, Run(world, events[..n]), events[n]);
    }
  }

  /** Each version reaches activation at most once per router, whatever is replayed,
      duplicated or reordered. */
  lemma ActivatedAtMostOnce(world: World, events: seq<Event>, i: nat, j: nat)
    requires var a := Run(world, events).activations;
             i < |a| && j < |a| && a[i].node == a[j].node && a[i].version == a[j].version
    ensures i == j
  {
    RunIsOncePerVersion(world, events);
  }
}
