/** One relay hop: an envelope signed by the direct parent is checked, one path element is
    dropped, and the rest is signed again for the next registered child. */
module FederationRelay {
  import opened Results
  import opened Text
  import opened Identity
  import opened Json
  import opened FederationCrypto

  type Namespace = string

  /** A payload as its readers see it; None stands for a field that is absent or of the
      wrong type. */
  datatype Payload = Payload(path: Option<seq<Namespace>>, config: Option<string>, version: Option<int>, signedAt: int)

  /** Ideal signatures: which router signed what, and for which purpose. */
  datatype Signature = Signed(signer: Namespace, purpose: Purpose, payload: Payload) | Forged

  datatype Envelope = Envelope(payload: Payload, signature: Signature, rawBytes: nat) | Malformed(rawBytes: nat)

  datatype Topic = ConfigTopic(namespace: Namespace) | RelayTopic(namespace: Namespace)

  datatype Message = Message(topic: Topic, payload: Payload, signature: Signature)

  const MAX_ENVELOPE_BYTES := 512 * 1024
  const MAX_CONFIG_BYTES := 256 * 1024
  const MAX_RELAY_HOPS := 64

  /** The policy certificate file of the trusted parent. */
  datatype ParentCert = NoCert | Cert(parent: Namespace, current: bool)

  /** `verify_envelope`. */
  function Verify(e: Envelope, cert: ParentCert, purpose: Purpose): Option<Payload> {
    if e.Envelope? && cert.Cert? && cert.current && e.signature == Signed(cert.parent, purpose, e.payload)
    then Some(e.payload) else None
  }

  /** What a router has at hand when a relay envelope arrives. */
  datatype Context = Context(
    own: Namespace,
    cert: ParentCert,
    children: Option<set<Namespace>>,
    canSign: bool,
    canPut: bool,
    now: int)

  predicate WellFormedRelay(p: Payload, own: Namespace) {
    && p.path.Some? && 2 <= |p.path.value| <= MAX_RELAY_HOPS
    && (forall i | 0 <= i < |p.path.value| :: p.path.value[i] != "")
    && p.path.value[0] == own
    && p.config.Some? && Utf8Length(p.config.value) <= MAX_ENVELOPE_BYTES
    && p.version.Some? && 0 <= p.version.value
  }

  /** The message for the next hop: a configuration for the last one, a shorter relay
      payload for any other. */
  function NextMessage(c: Context, p: Payload): Message
    requires WellFormedRelay(p, c.own)
  {
    var path := p.path.value;
    var next := path[1];
    if |path| == 2 then
      var forwarded := Payload(None, p.config, p.version, c.now);
      Message(ConfigTopic(next), forwarded, Signed(c.own, ConfigPurpose, forwarded))
    else
      var forwarded := Payload(Some(path[1..]), p.config, p.version, c.now);
      Message(RelayTopic(next), forwarded, Signed(c.own, RelayPurpose, forwarded))
  }

  datatype Outcome = Dropped | NotForwarded | Forwarded(message: Message)

  /** What one relay envelope makes a router do. */
  function Relay(c: Context, e: Envelope): Outcome {
    if e.rawBytes > MAX_ENVELOPE_BYTES then Dropped
    else
      match Verify(e, c.cert, RelayPurpose)
      case None => Dropped
      case Some(p) =>
        if !WellFormedRelay(p, c.own) || c.children.None? || p.path.value[1] !in c.children.value then Dropped
        else if !c.canSign || !c.canPut then NotForwarded
        else Forwarded(NextMessage(c, p))
  }

  datatype Audit = RelayRejected | RelayFailed | RelayForwarded(next: Namespace, remaining: nat)

  function AuditOf(c: Context, e: Envelope): Audit {
    match Relay(c, e)
    case Dropped => RelayRejected
    case NotForwarded => RelayFailed
    case Forwarded(m) => RelayForwarded(m.topic.namespace, |e.payload.path.value| - 1)
  }

  /** An envelope that is passed on: within the limits, signed for relaying by the trusted parent,
      addressed to this router, and with a registered child as the next hop. */
  predicate PassedOn(c: Context, e: Envelope) {
    && e.Envelope? && e.rawBytes <= MAX_ENVELOPE_BYTES
    && c.cert.Cert? && c.cert.current && e.signature == Signed(c.cert.parent, RelayPurpose, e.payload)
    && e.payload.config.Some? && Utf8Length(e.payload.config.value) <= MAX_ENVELOPE_BYTES
    && e.payload.version.Some? && 0 <= e.payload.version.value
    && e.payload.path.Some?
    && var path := e.payload.path.value;
       && 2 <= |path| <= 64 && (forall i | 0 <= i < |path| :: path[i] != "") && path[0] == c.own
       && c.children.Some? && path[1] in c.children.value
  }

  /** Signed again without its own name in the path; without any path for the last hop. */
  predicate IsNext(c: Context, p: Payload, m: Message)
    requires p.path.Some? && |p.path.value| >= 2
  {
    var path, last := p.path.value, |p.path.value| == 2;
    && m.payload.config == p.config && m.payload.version == p.version && m.payload.signedAt == c.now
    && m.payload.path == (if last then None else Some(path[1..]))
    && m.topic == (if last then ConfigTopic(path[1]) else RelayTopic(path[1]))
    && m.signature == Signed(c.own, if last then ConfigPurpose else RelayPurpose, m.payload)
  }

  lemma RelayExactly(c: Context, e: Envelope)
    ensures Relay(c, e).Dropped? <==> !PassedOn(c, e)
    ensures Relay(c, e).Forwarded? <==> PassedOn(c, e) && c.canSign && c.canPut
    ensures Relay(c, e).Forwarded? ==> IsNext(c, e.payload, Relay(c, e).message)
  {
    hide Utf8Length;
  }

  /** The relay subscriber of a router: it puts messages and writes audit records. */
  class Relayer {
    var outbox: seq<Message>
    var audit: seq<Audit>

    constructor ()
      ensures outbox == [] && audit == []
    {
      outbox := [];
      audit := [];
    }

    /** `_handle_relay`. */
    method HandleRelay(c: Context, e: Envelope)
      modifies this
      ensures outbox == old(outbox) + (match Relay(c, e) case Forwarded(m) => [m] case _ => [])
      ensures audit == old(audit) + [AuditOf(c, e)]
      ensures if PassedOn(c, e) && c.canSign && c.canPut
              then |outbox| == |old(outbox)| + 1 && outbox[..|old(outbox)|] == old(outbox) && IsNext(c, e.payload, outbox[|old(outbox)|])
              else outbox == old(outbox)
      ensures audit == old(audit) + [if !PassedOn(c, e) then RelayRejected
                                     else if !c.canSign || !c.canPut then RelayFailed
                                     else RelayForwarded(e.payload.path.value[1], |e.payload.path.value| - 1)]
    {
      RelayExactly(c, e);
      hide PassedOn, Utf8Length;
      if e.rawBytes > MAX_ENVELOPE_BYTES {
        audit := audit + [RelayRejected];
        return;
      }
      var verified := Verify(e, c.cert, RelayPurpose);
      if verified.None? {
        audit := audit + [RelayRejected];
        return;
      }
      var payload := verified.value;
      if !WellFormedRelay(payload, c.own) {
        audit := audit + [RelayRejected];
        return;
      }
      if c.children.None? {
        audit := audit + [RelayRejected];
        return;
      }
      var path := payload.path.value;
      var nextHop := path[1];
      if nextHop !in c.children.value {
        audit := audit + [RelayRejected];
        return;
      }
      if !c.canSign {
        audit := audit + [RelayFailed];
        return;
      }
      var forwarded, topic, purpose;
      if |path| == 2 {
        forwarded := Payload(None, payload.config, payload.version, c.now);
        topic, purpose := ConfigTopic(nextHop), ConfigPurpose;
      } else {
        forwarded := Payload(Some(path[1..]), payload.config, payload.version, c.now);
        topic, purpose := RelayTopic(nextHop), RelayPurpose;
      }
      if !c.canPut {
        audit := audit + [RelayFailed];
        return;
      }
      outbox := outbox + [Message(topic, forwarded, Signed(c.own, purpose, forwarded))];
      audit := audit + [RelayForwarded(nextHop, |path| - 1)];
    }
  }

  // ----- delivery along a registered path -----

  /** Where a message goes next on a network that loses nothing: the router named by its
      topic relays it, until it is a configuration. `encoded` is the size of each envelope. */
  function Carry(contexts: Namespace -> Context, m: Message, encoded: Payload -> nat, hops: nat): Option<Message>
    decreases hops
  {
    if hops == 0 then Some(m)
    else if m.topic.ConfigTopic? then None
    else
      match Relay(contexts(m.topic.namespace), Envelope(m.payload, m.signature, encoded(m.payload)))
      case Forwarded(next) => Carry(contexts, next, encoded, hops - 1)
      case _ => None
  }

  /** The i-th router of a path is up, trusts the one before it, and has registered the next. */
  predicate LinkedAt(c: Context, origin: Namespace, path: seq<Namespace>, i: nat)
    requires i < |path|
  {
    && path[i] != "" && c.own == path[i]
    && c.cert == Cert(if i == 0 then origin else path[i - 1], true)
    && c.canSign && c.canPut
    && (i + 1 < |path| ==> c.children.Some? && path[i + 1] in c.children.value)
  }

  predicate Linked(contexts: Namespace -> Context, origin: Namespace, path: seq<Namespace>) {
    forall i | 0 <= i < |path| :: LinkedAt(contexts(path[i]), origin, path, i)
  }

  /** The message that starts a relayed push. */
  function RelayStart(origin: Namespace, path: seq<Namespace>, config: string, version: int, now: int): Message
    requires |path| >= 1
  {
    var p := Payload(Some(path), Some(config), Some(version), now);
    Message(RelayTopic(path[0]), p, Signed(origin, RelayPurpose, p))
  }

  predicate ArrivesAt(m: Message, last: Namespace, signer: Namespace, config: string, version: int) {
    && m.topic == ConfigTopic(last)
    && m.payload.path.None? && m.payload.config == Some(config) && m.payload.version == Some(version)
    && m.signature == Signed(signer, ConfigPurpose, m.payload)
  }

  lemma FirstHop(c: Context, origin: Namespace, path: seq<Namespace>, config: string, version: int, now: int, rawBytes: nat)
    requires 2 <= |path| <= MAX_RELAY_HOPS && LinkedAt(c, origin, path, 0)
    requires forall i | 0 <= i < |path| :: path[i] != ""
    requires Utf8Length(config) <= MAX_CONFIG_BYTES && 0 <= version && rawBytes <= MAX_ENVELOPE_BYTES
    ensures var start := RelayStart(origin, path, config, version, now);
            && WellFormedRelay(start.payload, c.own)
            && Relay(c, Envelope(start.payload, start.signature, rawBytes)) == Forwarded(NextMessage(c, start.payload))
            && (|path| > 2 ==> NextMessage(c, start.payload) == RelayStart(path[0], path[1..], config, version, c.now))
            && (|path| == 2 ==> ArrivesAt(NextMessage(c, start.payload), path[1], path[0], config, version))
  {}

  lemma LinkedTail(contexts: Namespace -> Context, origin: Namespace, path: seq<Namespace>)
    requires |path| >= 1 && Linked(contexts, origin, path)
    ensures Linked(contexts, path[0], path[1..])
    ensures forall i | 0 <= i < |path| :: path[i] != ""
  {}

  /** The i-th relay payload of a push, signed when the router before passes it on. */
  function PayloadAt(contexts: Namespace -> Context, path: seq<Namespace>, config: string, version: int, now: int, i: nat): Payload
    requires i < |path|
    decreases i
  {
    if i == 0 then Payload(Some(path), Some(config), Some(version), now)
    else PayloadAt(contexts, path[1..], config, version, contexts(path[0]).now, i - 1)
  }

  /** The first n relay envelopes of a push are within the size limit. */
  predicate EnvelopesFit(contexts: Namespace -> Context, path: seq<Namespace>, config: string, version: int, now: int,
                         encoded: Payload -> nat, n: nat)
    requires n <= |path|
  {
    forall i | 0 <= i < n :: encoded(PayloadAt(contexts, path, config, version, now, i)) <= MAX_ENVELOPE_BYTES
  }

  lemma EnvelopesFitTail(contexts: Namespace -> Context, path: seq<Namespace>, config: string, version: int, now: int,
                         encoded: Payload -> nat, n: nat)
    requires 1 <= n <= |path|
    ensures EnvelopesFit(contexts, path, config, version, now, encoded, n) <==>
            && encoded(Payload(Some(path), Some(config), Some(version), now)) <= MAX_ENVELOPE_BYTES
            && EnvelopesFit(contexts, path[1..], config, version, contexts(path[0]).now, encoded, n - 1)
  {
    var later := contexts(path[0]).now;
    if EnvelopesFit(contexts, path, config, version, now, encoded, n) {
      forall i | 0 <= i < n - 1
        ensures encoded(PayloadAt(contexts, path[1..], config, version, later, i)) <= MAX_ENVELOPE_BYTES
      {
        assert PayloadAt(contexts, path, config, version, now, i + 1) == PayloadAt(contexts, path[1..], config, version, later, i);
      }
      assert PayloadAt(contexts, path, config, version, now, 0) == Payload(Some(path), Some(config), Some(version), now);
    } else {
      var i :| 0 <= i < n && encoded(PayloadAt(contexts, path, config, version, now, i)) > MAX_ENVELOPE_BYTES;
      assert i > 0 ==> PayloadAt(contexts, path[1..], config, version, later, i - 1) == PayloadAt(contexts, path, config, version, now, i);
    }
  }

  lemma TooLongIsDropped(c: Context, e: Envelope)
    requires e.rawBytes > MAX_ENVELOPE_BYTES
    ensures Relay(c, e) == Dropped
  {}

  /** A push along n linked routers, n at most 64: after exactly n - 1 relay steps it is on the
      topic of the last one, text and version unchanged and signed by the target's own parent,
      if and only if each of the n - 1 relay envelopes is within the size limit. */
  lemma {:induction false} CarriesExactly(contexts: Namespace -> Context, origin: Namespace, path: seq<Namespace>,
                                          config: string, version: int, now: int, encoded: Payload -> nat)
    requires 2 <= |path| <= MAX_RELAY_HOPS && Linked(contexts, origin, path)
    requires Utf8Length(config) <= MAX_CONFIG_BYTES && 0 <= version
    ensures var arrived := Carry(contexts, RelayStart(origin, path, config, version, now), encoded, |path| - 1);
            && (arrived.Some? <==> EnvelopesFit(contexts, path, config, version, now, encoded, |path| - 1))
            && (arrived.Some? ==> ArrivesAt(arrived.value, path[|path| - 1], path[|path| - 2], config, version))
    decreases |path|
  {
    hide Relay, Utf8Length, WellFormedRelay, EnvelopesFit;
    var start := RelayStart(origin, path, config, version, now);
    var c := contexts(path[0]);
    var raw := encoded(start.payload);
    EnvelopesFitTail(contexts, path, config, version, now, encoded, |path| - 1);
    if raw > MAX_ENVELOPE_BYTES {
      TooLongIsDropped(c, Envelope(start.payload, start.signature, raw));
    } else {
      LinkedTail(contexts, origin, path);
      FirstHop(c, origin, path, config, version, now, raw);
      if |path| > 2 {
        CarriesExactly(contexts, path[0], path[1..], config, version, c.now, encoded);
      } else {
        assert Carry(contexts, NextMessage(c, start.payload), encoded, 0) == Some(NextMessage(c, start.payload));
        NoEnvelopesFit(contexts, path[1..], config, version, c.now, encoded);
      }
    }
  }

  lemma NoEnvelopesFit(contexts: Namespace -> Context, path: seq<Namespace>, config: string, version: int, now: int,
                       encoded: Payload -> nat)
    ensures EnvelopesFit(contexts, path, config, version, now, encoded, 0)
  {}

  /** On the way it is on the relay topic of the k-th router after k steps, if and only if the
      k envelopes before were within the limit. */
  lemma {:induction false} PassesExactly(contexts: Namespace -> Context, origin: Namespace, path: seq<Namespace>,
                                         config: string, version: int, now: int, encoded: Payload -> nat, k: nat)
    requires 2 <= |path| <= MAX_RELAY_HOPS && k < |path| - 1 && Linked(contexts, origin, path)
    requires Utf8Length(config) <= MAX_CONFIG_BYTES && 0 <= version
    ensures var m := Carry(contexts, RelayStart(origin, path, config, version, now), encoded, k);
            && (m.Some? <==> EnvelopesFit(contexts, path, config, version, now, encoded, k))
            && (m.Some? ==> m.value.topic == RelayTopic(path[k]))
    decreases k
  {
    hide Relay, Utf8Length, WellFormedRelay, EnvelopesFit;
    if k > 0 {
      var start := RelayStart(origin, path, config, version, now);
      var c := contexts(path[0]);
      var raw := encoded(start.payload);
      EnvelopesFitTail(contexts, path, config, version, now, encoded, k);
      if raw > MAX_ENVELOPE_BYTES {
        TooLongIsDropped(c, Envelope(start.payload, start.signature, raw));
      } else {
        LinkedTail(contexts, origin, path);
        FirstHop(c, origin, path, config, version, now, raw);
        PassesExactly(contexts, path[0], path[1..], config, version, c.now, encoded, k - 1);
      }
    } else {
      NoEnvelopesFit(contexts, path, config, version, now, encoded);
    }
  }

  // ----- the size of an envelope -----

  /** The bytes of a relay envelope, all of them ASCII. The origin leaves a blank after each
      separator, a relay does not. */
  function EnvelopeText(path: seq<Namespace>, config: string, version: nat, gap: string, stamp: string, signature: string): string {
    "{\"payload\":" + gap + "{\"path\":" + gap + "[" + Strings(path, gap) + "]," + gap + "\"config\":" + gap
    + "\"" + JsonText(config) + "\"," + gap + "\"version\":" + gap + Decimal(version) + "," + gap + "\"signed_at\":" + gap + stamp
    + "}," + gap + "\"signature\":" + gap + "\"" + signature + "\"}"
  }

  predicate IsRelay(p: Payload) {
    p.path.Some? && p.config.Some? && p.version.Some? && p.version.value >= 0
  }

  /** The sizes are those of such texts, with a floating-point time stamp and the base64 form of
      a P-256 signature. */
  ghost predicate Serialises(encoded: Payload -> nat) {
    forall p | IsRelay(p) :: exists gap: string, stamp: string, signature: string ::
      && |gap| <= 1 && |stamp| <= 32 && |signature| <= 96
      && encoded(p) == |EnvelopeText(p.path.value, p.config.value, p.version.value, gap, stamp, signature)|
  }

  /** More than escaping adds to any text that is rendered from an ordinary template. */
  const MAX_EXCESS := 240_000

  const MAX_VERSION := 0x7FFF_FFFF_FFFF_FFFF

  lemma VersionLength(version: nat)
    requires version <= MAX_VERSION
    ensures |Decimal(version)| <= 19
  {
    assert PowerOfTen(4) == 1_0000;
    assert PowerOfTen(8) == 1_0000_0000;
    assert PowerOfTen(12) == 1_0000_0000_0000;
    assert PowerOfTen(16) == 1_0000_0000_0000_0000;
    assert PowerOfTen(19) == 1000_0000_0000_0000_0000;
    DecimalLength(version, 19);
  }

  lemma NamesLength(path: seq<Namespace>, gap: string)
    requires |path| <= MAX_RELAY_HOPS && |gap| <= 1 && forall n | n in path :: TopologyName(n)
    ensures |Strings(path, gap)| <= 64 * 259
  {
    forall n | n in path
      ensures |JsonText(n)| <= 255
    {
      PlainIsKept(n);
    }
    hide JsonText, Strings;
    StringsLength(path, gap, 255);
  }

  lemma EnvelopeIsSmall(path: seq<Namespace>, config: string, version: nat, gap: string, stamp: string, signature: string)
    requires |path| <= MAX_RELAY_HOPS && forall n | n in path :: TopologyName(n)
    requires Utf8Length(config) <= MAX_CONFIG_BYTES && Excess(config) <= MAX_EXCESS && version <= MAX_VERSION
    requires |gap| <= 1 && |stamp| <= 32 && |signature| <= 96
    ensures |EnvelopeText(path, config, version, gap, stamp, signature)| <= MAX_ENVELOPE_BYTES
  {
    NamesLength(path, gap);
    JsonTextLength(config);
    VersionLength(version);
    hide Strings, JsonText, Decimal, Excess, Utf8Length;
  }

  lemma {:induction false} PayloadAtIs(contexts: Namespace -> Context, path: seq<Namespace>, config: string, version: int, now: int, i: nat)
    requires i < |path|
    ensures var p := PayloadAt(contexts, path, config, version, now, i);
            p.path == Some(path[i..]) && p.config == Some(config) && p.version == Some(version)
    decreases i
  {
    if i > 0 {
      PayloadAtIs(contexts, path[1..], config, version, contexts(path[0]).now, i - 1);
      assert path[1..][i - 1..] == path[i..];
    }
  }

  /** Every envelope of a push fits, whatever the path of topology names and whatever the text
      within its own limit, unless escaping adds out of all proportion. */
  lemma EnvelopesAreSmall(contexts: Namespace -> Context, path: seq<Namespace>, config: string, version: int, now: int,
                          encoded: Payload -> nat, n: nat)
    requires n <= |path| <= MAX_RELAY_HOPS && (forall x | x in path :: TopologyName(x)) && Serialises(encoded)
    requires Utf8Length(config) <= MAX_CONFIG_BYTES && Excess(config) <= MAX_EXCESS && 0 <= version <= MAX_VERSION
    ensures EnvelopesFit(contexts, path, config, version, now, encoded, n)
  {
    forall i | 0 <= i < n
      ensures encoded(PayloadAt(contexts, path, config, version, now, i)) <= MAX_ENVELOPE_BYTES
    {
      PayloadAtIs(contexts, path, config, version, now, i);
      hide EnvelopeText, Utf8Length, Excess, TopologyName;
      var p := PayloadAt(contexts, path, config, version, now, i);
      assert IsRelay(p);
      var gap: string, stamp: string, signature: string :|
        && |gap| <= 1 && |stamp| <= 32 && |signature| <= 96
        && encoded(p) == |EnvelopeText(p.path.value, p.config.value, p.version.value, gap, stamp, signature)|;
      EnvelopeIsSmall(path[i..], config, version, gap, stamp, signature);
    }
  }

  lemma NobodyCarriesLonger(contexts: Namespace -> Context, origin: Namespace, path: seq<Namespace>, config: string, version: int,
                            now: int, encoded: Payload -> nat, hops: nat)
    requires |path| > MAX_RELAY_HOPS && hops > 0
    ensures Carry(contexts, RelayStart(origin, path, config, version, now), encoded, hops).None?
  {
    var start := RelayStart(origin, path, config, version, now);
    LongPathIsDropped(contexts(path[0]), origin, path, config, version, now, encoded(start.payload));
    hide Relay;
  }

  /** A longer path is dropped by its first router, whatever the network does. */
  lemma LongPathIsDropped(c: Context, origin: Namespace, path: seq<Namespace>, config: string, version: int, now: int, rawBytes: nat)
    requires |path| > MAX_RELAY_HOPS
    ensures var start := RelayStart(origin, path, config, version, now);
            Relay(c, Envelope(start.payload, start.signature, rawBytes)) == Dropped
  {}
}
