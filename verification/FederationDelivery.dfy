/** A push to a descendant, from its acceptance at the origin to the target's topic. */
module FederationDelivery {
  import opened Results
  import opened Text
  import opened Identity
  import opened Json
  import opened ConfigRender
  import opened FederationRelay
  import opened FederationNetwork

  /** A push that its origin accepts: its text is rendered from valid fields, and the names in the
      topology that it goes by are ones that the topology takes. */
  predicate Sent(net: Net, e: Event, template: string, f: ConfigFields, parses: string -> bool) {
    && e.PushConfig? && Accepted(net, e) && e.version <= MAX_VERSION
    && (forall n | n in e.topology :: TopologyName(n))
    && ValidFields(f) && ValidProfile(f.profile) && RenderConfig(Some(template), f, parses) == Ok(e.config)
  }

  lemma SentFits(contexts: Namespace -> Context, net: Net, e: Event, template: string, f: ConfigFields, parses: string -> bool,
                 encoded: Payload -> nat, n: nat)
    requires Sent(net, e, template, f, parses) && Cost(template) <= MAX_EXCESS && Serialises(encoded)
    requires n <= |PushPath(net, e).value| <= MAX_RELAY_HOPS && |PushPath(net, e).value| >= 2
    ensures EnvelopesFit(contexts, PushPath(net, e).value, e.config, e.version, e.now, encoded, n)
  {
    RelayedPathIsKnown(net, e);
    hide PushPath, TopologyName, RenderConfig, ValidFields, ValidProfile, Cost, Excess, Utf8Length, Serialises, EnvelopesFit;
    RenderedCost(template, f, parses);
    EnvelopesAreSmall(contexts, PushPath(net, e).value, e.config, e.version, e.now, encoded, n);
  }

  lemma SentStart(net: Net, e: Event)
    requires e.PushConfig? && Accepted(net, e)
    ensures var path := PushPath(net, e).value;
            && |path| >= 1 && path[|path| - 1] == e.target && 0 <= e.version && Utf8Length(e.config) <= MAX_CONFIG_BYTES
            && (|path| == 1 ==> ArrivesAt(PushMessage(e, path), e.target, e.origin, e.config, e.version))
            && (|path| >= 2 ==> PushMessage(e, path) == RelayStart(e.origin, path, e.config, e.version, e.now))
  {
    PathEndsAtTarget(net, e);
    hide Utf8Length;
  }

  /** After one relay step less than the path has hops, the text and version of the push are on the
      topic of its target, signed by the target's parent; but only when there are at most 64. */
  predicate Delivered(contexts: Namespace -> Context, e: Event, path: seq<Namespace>, encoded: Payload -> nat)
    requires e.PushConfig? && |path| >= 1
  {
    var arrived := Carry(contexts, PushMessage(e, path), encoded, |path| - 1);
    && (arrived.Some? <==> |path| <= MAX_RELAY_HOPS)
    && (arrived.Some? ==> ArrivesAt(arrived.value, e.target, ([e.origin] + path)[|path| - 1], e.config, e.version))
  }

  /** Along linked routers every push that is accepted arrives, if and only if its path has at
      most 64 hops. */
  lemma RelayDelivers(contexts: Namespace -> Context, net: Net, e: Event, template: string, f: ConfigFields, parses: string -> bool,
                      encoded: Payload -> nat)
    requires Sent(net, e, template, f, parses) && Cost(template) <= MAX_EXCESS && Serialises(encoded)
    requires Linked(contexts, e.origin, PushPath(net, e).value)
    ensures |PushPath(net, e).value| >= 1 && Delivered(contexts, e, PushPath(net, e).value, encoded)
  {
    hide Sent, PushPath, Accepted, PushMessage, Cost, Serialises, EnvelopesFit, Linked, ArrivesAt, Carry, Utf8Length, Delivered;
    SentIsAccepted(net, e, template, f, parses);
    SentStart(net, e);
    var path := PushPath(net, e).value;
    if |path| == 1 {
      DirectArrives(contexts, e, path, encoded);
    } else {
      if |path| <= MAX_RELAY_HOPS {
        SentFits(contexts, net, e, template, f, parses, encoded, |path| - 1);
      }
      RelayedArrives(contexts, e, path, encoded);
    }
  }

  lemma DirectArrives(contexts: Namespace -> Context, e: Event, path: seq<Namespace>, encoded: Payload -> nat)
    requires e.PushConfig? && |path| == 1 && ArrivesAt(PushMessage(e, path), e.target, e.origin, e.config, e.version)
    ensures Delivered(contexts, e, path, encoded)
  {
    hide ArrivesAt, PushMessage;
  }

  lemma RelayedArrives(contexts: Namespace -> Context, e: Event, path: seq<Namespace>, encoded: Payload -> nat)
    requires e.PushConfig? && |path| >= 2 && path[|path| - 1] == e.target && Linked(contexts, e.origin, path)
    requires PushMessage(e, path) == RelayStart(e.origin, path, e.config, e.version, e.now)
    requires Utf8Length(e.config) <= MAX_CONFIG_BYTES && 0 <= e.version
    requires |path| <= MAX_RELAY_HOPS ==> EnvelopesFit(contexts, path, e.config, e.version, e.now, encoded, |path| - 1)
    ensures Delivered(contexts, e, path, encoded)
  {
    hide Linked, EnvelopesFit, ArrivesAt, Utf8Length, Carry, RelayStart, PushMessage;
    if |path| <= MAX_RELAY_HOPS {
      CarriesExactly(contexts, e.origin, path, e.config, e.version, e.now, encoded);
    } else {
      NobodyCarriesLonger(contexts, e.origin, path, e.config, e.version, e.now, encoded, |path| - 1);
    }
  }

  lemma SentIsAccepted(net: Net, e: Event, template: string, f: ConfigFields, parses: string -> bool)
    requires Sent(net, e, template, f, parses)
    ensures e.PushConfig? && Accepted(net, e)
  {}

  /** On the way it is on the relay topic of the k-th router after k steps. */
  lemma RelayPassesThrough(contexts: Namespace -> Context, net: Net, e: Event, template: string, f: ConfigFields, parses: string -> bool,
                           encoded: Payload -> nat, k: nat)
    requires Sent(net, e, template, f, parses) && Cost(template) <= MAX_EXCESS && Serialises(encoded)
    requires Linked(contexts, e.origin, PushPath(net, e).value) && k < |PushPath(net, e).value| - 1
    ensures var path := PushPath(net, e).value;
            var m := Carry(contexts, PushMessage(e, path), encoded, k);
            && (m.Some? <==> k == 0 || |path| <= MAX_RELAY_HOPS)
            && (m.Some? ==> m.value.topic == RelayTopic(path[k]))
  {
    SentStart(net, e);
    var path := PushPath(net, e).value;
    if |path| <= MAX_RELAY_HOPS {
      SentFits(contexts, net, e, template, f, parses, encoded, k);
      hide PushPath, Accepted, PushMessage, RenderConfig, ValidFields, ValidProfile, Cost, Serialises, EnvelopesFit, Linked, Utf8Length;
      PassesExactly(contexts, e.origin, path, e.config, e.version, e.now, encoded, k);
    } else if k > 0 {
      hide PushPath, Accepted, PushMessage, RenderConfig, ValidFields, ValidProfile, Cost, Serialises, Linked, Utf8Length;
      NobodyCarriesLonger(contexts, e.origin, path, e.config, e.version, e.now, encoded, k);
    }
  }
}
