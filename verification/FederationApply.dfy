/** The target of a configuration push: replay protection, protected settings, and the
    activation transaction around them. */
module FederationApply {
  import opened Results
  import opened FederationCrypto
  import opened FederationRelay
  import opened ConfigApply

  datatype Fields = Fields(
    partner: Namespace,
    namespacePrefix: string,
    publishPrefix: string,
    mtlsPort: int,
    localTcpPort: int,
    tlsProfile: string,
    verifyName: bool,
    endpoints: seq<string>)

  function CandidateOf(f: Fields): Candidate {
    Candidate(f.namespacePrefix, f.publishPrefix, f.tlsProfile)
  }

  datatype Refusal =
    | PartnerChange | CurrentUnreadable | PrefixChange | MtlsPortChange | LocalPortChange
    | TlsProfileChange | NamePolicyChange | EndpointsNotStaged

  predicate SharesEndpoint(a: seq<string>, b: seq<string>) {
    exists e | e in a :: e in b
  }

  /** `_federated_candidate_error`. */
  function CandidateError(own: Namespace, candidate: Fields, current: Option<Fields>): Option<Refusal> {
    if candidate.partner != own then Some(PartnerChange)
    else if current.None? then Some(CurrentUnreadable)
    else
      var active := current.value;
      if candidate.namespacePrefix != active.namespacePrefix then Some(PrefixChange)
      else if candidate.mtlsPort != active.mtlsPort then Some(MtlsPortChange)
      else if candidate.localTcpPort != active.localTcpPort then Some(LocalPortChange)
      else if candidate.tlsProfile != active.tlsProfile then Some(TlsProfileChange)
      else if candidate.verifyName != active.verifyName then Some(NamePolicyChange)
      else if active.endpoints != [] && !SharesEndpoint(active.endpoints, candidate.endpoints) then Some(EndpointsNotStaged)
      else None
  }

  /** What the signed part of a push decides, before its text is looked at. */
  datatype Intake = NoParent | BadEnvelope | BadSignature | BadVersion | BadConfig | Replayed | Fresh(version: int, config: string)

  function Receive(cert: ParentCert, lastSeen: int, e: Envelope): Intake {
    if e.Malformed? then BadEnvelope
    else if cert.NoCert? then NoParent
    else
      match Verify(e, cert, ConfigPurpose)
      case None => BadSignature
      case Some(p) =>
        if p.version.None? || p.version.value < 0 then BadVersion
        else if p.config.None? then BadConfig
        else if p.version.value <= lastSeen then Replayed
        else Fresh(p.version.value, p.config.value)
  }

  /** The status that is published for a push; none without a trusted parent, and none when
      activation ends in an exception. */
  datatype Report = Unreported | ReportRejected | ReportOk(version: int) | ReportRolledBack(version: int)

  /** A configuration that was handed to activation, and what came of it. */
  datatype Attempt = Attempt(version: int, config: string, fields: Fields, status: Status)

  // ----- the target as its pushes change it -----

  /** `_extract_fields`: it reads a text, and the two prefixes from their files. */
  datatype FieldReader = FieldReader(extract: (string, string, string) -> Option<Fields>, prefix: string, data: string) {
    function At(text: string): Option<Fields> {
      extract(text, prefix, data)
    }
  }

  datatype View = View(lastSeen: int, config: string)

  datatype Push = Push(cert: ParentCert, envelope: Envelope, env: Outcomes)

  /** A configuration that the trusted parent signed, as its current certificate tells. */
  predicate Authentic(cert: ParentCert, e: Envelope) {
    && cert.Cert? && cert.current
    && e.Envelope? && e.signature == Signed(cert.parent, ConfigPurpose, e.payload)
  }

  /** And that this router has not seen: complete, and of a version above the last one. */
  predicate SignedFresh(cert: ParentCert, lastSeen: int, e: Envelope) {
    && Authentic(cert, e)
    && e.payload.version.Some? && 0 <= e.payload.version.value && lastSeen < e.payload.version.value
    && e.payload.config.Some?
  }

  /** The settings that a parent cannot change. */
  predicate SameProtected(a: Fields, b: Fields) {
    && a.namespacePrefix == b.namespacePrefix
    && a.mtlsPort == b.mtlsPort && a.localTcpPort == b.localTcpPort
    && a.tlsProfile == b.tlsProfile && a.verifyName == b.verifyName
  }

  /** A text that may be activated in place of the current one: both can be read, it names this
      router, keeps every protected setting, and keeps an endpoint where there is one. */
  predicate FieldsPass(own: Namespace, read: FieldReader, current: string, text: string) {
    && read.At(text).Some? && read.At(current).Some?
    && var candidate, active := read.At(text).value, read.At(current).value;
       && candidate.partner == own && SameProtected(candidate, active)
       && (active.endpoints != [] ==> exists e | e in active.endpoints :: e in candidate.endpoints)
  }

  /** The attempt at activation that a push leads to, if it gets that far. */
  function AttemptOf(own: Namespace, read: FieldReader, v: View, push: Push): Option<Attempt> {
    match Receive(push.cert, v.lastSeen, push.envelope)
    case Fresh(version, config) =>
      if read.At(config).Some? && CandidateError(own, read.At(config).value, read.At(v.config)).None?
      then Some(Attempt(version, config, read.At(config).value, Verdict(CandidateOf(read.At(config).value), true, push.env)))
      else None
    case _ => None
  }

  function ReportOn(intake: Intake, attempt: Option<Attempt>): Report {
    if intake.NoParent? then Unreported
    else if attempt.None? then ReportRejected
    else
      match attempt.value.status
      case Applied => ReportOk(attempt.value.version)
      case RolledBack => ReportRolledBack(attempt.value.version)
      case Raised => Unreported
      case _ => ReportRejected
  }

  function Step(own: Namespace, read: FieldReader, v: View, push: Push): View {
    match Receive(push.cert, v.lastSeen, push.envelope)
    case Fresh(version, _) =>
      var attempt := AttemptOf(own, read, v, push);
      View(version, if attempt.Some? && attempt.value.status == Applied then attempt.value.config else v.config)
    case _ => v
  }

  function Run(own: Namespace, read: FieldReader, v: View, pushes: seq<Push>): View
    decreases pushes
  {
    if pushes == [] then v else Run(own, read, Step(own, read, v, pushes[0]), pushes[1..])
  }

  function Attempts(own: Namespace, read: FieldReader, v: View, pushes: seq<Push>): seq<Attempt>
    decreases pushes
  {
    if pushes == [] then []
    else
      (match AttemptOf(own, read, v, pushes[0]) case Some(a) => [a] case None => [])
      + Attempts(own, read, Step(own, read, v, pushes[0]), pushes[1..])
  }

  /** The field checks refuse nothing but another name, a change of a protected setting, and
      endpoints without one in common. */
  lemma CandidateErrorExact(own: Namespace, candidate: Fields, active: Fields)
    ensures CandidateError(own, candidate, Some(active)).None? <==>
            && candidate.partner == own && SameProtected(candidate, active)
            && (active.endpoints != [] ==> exists e | e in active.endpoints :: e in candidate.endpoints)
  {}

  lemma ReceiveExactly(cert: ParentCert, lastSeen: int, e: Envelope)
    ensures SignedFresh(cert, lastSeen, e) ==> Receive(cert, lastSeen, e) == Fresh(e.payload.version.value, e.payload.config.value)
    ensures !SignedFresh(cert, lastSeen, e) ==> !Receive(cert, lastSeen, e).Fresh?
    ensures Receive(cert, lastSeen, e).NoParent? <==> cert.NoCert? && !e.Malformed?
  {}

  /** A push is attempted exactly when its signed part is fresh and its fields pass, and a
      version is recorded exactly when its signed part is fresh. */
  lemma AttemptedExactly(own: Namespace, read: FieldReader, v: View, push: Push)
    ensures var e, due := push.envelope, SignedFresh(push.cert, v.lastSeen, push.envelope);
            && AttemptOf(own, read, v, push)
               == (if due && FieldsPass(own, read, v.config, e.payload.config.value)
                   then Some(Attempt(e.payload.version.value, e.payload.config.value, read.At(e.payload.config.value).value,
                                     Verdict(CandidateOf(read.At(e.payload.config.value).value), true, push.env)))
                   else None)
            && Step(own, read, v, push).lastSeen == if due then e.payload.version.value else v.lastSeen
  {
    ReceiveExactly(push.cert, v.lastSeen, push.envelope);
    hide Receive, Verdict;
    var e := push.envelope;
    if SignedFresh(push.cert, v.lastSeen, e) && read.At(e.payload.config.value).Some? && read.At(v.config).Some? {
      CandidateErrorExact(own, read.At(e.payload.config.value).value, read.At(v.config).value);
    }
  }

  /** One push, from the fields in force before it to those in force after it. */
  predicate Staged(own: Namespace, before: Fields, after: Fields) {
    && SameProtected(before, after)
    && (after == before || after.partner == own)
    && (before.endpoints != [] ==> after.endpoints != [] && SharesEndpoint(before.endpoints, after.endpoints))
  }

  lemma StepIsStaged(own: Namespace, read: FieldReader, v: View, push: Push)
    requires read.At(v.config).Some?
    ensures var w := Step(own, read, v, push);
            && w.lastSeen >= v.lastSeen
            && read.At(w.config).Some?
            && Staged(own, read.At(v.config).value, read.At(w.config).value)
  {
    var before := read.At(v.config).value;
    var attempt := AttemptOf(own, read, v, push);
    if attempt.Some? {
      CandidateErrorExact(own, attempt.value.fields, before);
    }
    hide CandidateError;
    if before.endpoints != [] {
      assert before.endpoints[0] in before.endpoints;
    }
  }

  /** Over any sequence of pushes the recorded version never falls, protected settings never
      change, the identity stays this router's own, and endpoints never all disappear. */
  lemma {:induction false} RunKeepsProtected(own: Namespace, read: FieldReader, v: View, pushes: seq<Push>)
    requires read.At(v.config).Some?
    ensures var w := Run(own, read, v, pushes);
            && w.lastSeen >= v.lastSeen
            && read.At(w.config).Some?
            && SameProtected(read.At(v.config).value, read.At(w.config).value)
            && (read.At(v.config).value.partner == own ==> read.At(w.config).value.partner == own)
            && (read.At(v.config).value.endpoints != [] ==> read.At(w.config).value.endpoints != [])
    decreases pushes
  {
    if pushes != [] {
      StepIsStaged(own, read, v, pushes[0]);
      RunKeepsProtected(own, read, Step(own, read, v, pushes[0]), pushes[1..]);
    }
  }

  /** Versions above a bound, each above the one before. */
  predicate Rising(above: int, a: seq<Attempt>) {
    && (forall i | 0 <= i < |a| :: above < a[i].version)
    && (forall i, j | 0 <= i < j < |a| :: a[i].version < a[j].version)
  }

  /** Versions that reach activation strictly increase: each at most once, however pushes
      are repeated, reordered or refused. */
  lemma {:induction false} AttemptsIncrease(own: Namespace, read: FieldReader, v: View, pushes: seq<Push>)
    ensures Rising(v.lastSeen, Attempts(own, read, v, pushes))
    decreases pushes
  {
    if pushes != [] {
      var w := Step(own, read, v, pushes[0]);
      AttemptsIncrease(own, read, w, pushes[1..]);
      RisingPrepend(v.lastSeen, w.lastSeen, AttemptOf(own, read, v, pushes[0]), Attempts(own, read, w, pushes[1..]));
    }
  }

  lemma RisingPrepend(above: int, middle: int, head: Option<Attempt>, rest: seq<Attempt>)
    requires above <= middle && (head.Some? ==> above < head.value.version == middle)
    requires Rising(middle, rest)
    ensures Rising(above, (match head case Some(a) => [a] case None => []) + rest)
  {}

  /** Pushes that the trusted parent signed, complete and with rising versions. */
  predicate RisingPushes(lastSeen: int, pushes: seq<Push>)
    decreases pushes
  {
    pushes != [] ==>
      && SignedFresh(pushes[0].cert, lastSeen, pushes[0].envelope)
      && RisingPushes(pushes[0].envelope.payload.version.value, pushes[1..])
  }

  /** None of those is lost: of a run of pushes with rising versions exactly the ones whose
      fields pass, against the configuration then in force, are attempted. */
  lemma {:induction false} RisingPushesAreAttempted(own: Namespace, read: FieldReader, v: View, pushes: seq<Push>, i: nat)
    requires RisingPushes(v.lastSeen, pushes) && i < |pushes|
    ensures pushes[i].envelope.Envelope? && pushes[i].envelope.payload.version.Some? && pushes[i].envelope.payload.config.Some?
    ensures v.lastSeen < pushes[i].envelope.payload.version.value
    ensures var p, before := pushes[i].envelope.payload, Run(own, read, v, pushes[..i]);
            (exists a | a in Attempts(own, read, v, pushes) :: a.version == p.version.value)
            <==> FieldsPass(own, read, before.config, p.config.value)
    decreases pushes
  {
    var w := Step(own, read, v, pushes[0]);
    AttemptedExactly(own, read, v, pushes[0]);
    AttemptsIncrease(own, read, w, pushes[1..]);
    hide AttemptOf, FieldsPass, Step, Authentic;
    var later := Attempts(own, read, w, pushes[1..]);
    if i > 0 {
      RisingPushesAreAttempted(own, read, w, pushes[1..], i - 1);
      assert pushes[1..][i - 1] == pushes[i] && pushes[1..][..i - 1] == pushes[..i][1..];
    } else {
      assert pushes[..0] == [];
    }
  }

  /** Any two configurations in force one push apart share an endpoint. */
  lemma {:induction false} EndpointsAreStaged(own: Namespace, read: FieldReader, v: View, pushes: seq<Push>, k: nat)
    requires read.At(v.config).Some? && k < |pushes|
    ensures var before, after := Run(own, read, v, pushes[..k]), Run(own, read, v, pushes[..k + 1]);
            && read.At(before.config).Some? && read.At(after.config).Some?
            && Staged(own, read.At(before.config).value, read.At(after.config).value)
    decreases k
  {
    StepIsStaged(own, read, v, pushes[0]);
    if k > 0 {
      EndpointsAreStaged(own, read, Step(own, read, v, pushes[0]), pushes[1..], k - 1);
      assert pushes[1..][..k - 1] == pushes[..k][1..] && pushes[1..][..k] == pushes[..k + 1][1..];
    } else {
      assert pushes[..1][1..] == [];
    }
  }

  /** Attempts so far: strictly increasing versions, none above the last one seen. */
  predicate Recorded(attempts: seq<Attempt>, lastSeen: int) {
    && (forall i | 0 <= i < |attempts| :: attempts[i].version <= lastSeen)
    && (forall i, j | 0 <= i < j < |attempts| :: attempts[i].version < attempts[j].version)
  }

  lemma RecordedAppend(attempts: seq<Attempt>, lastSeen: int, next: Attempt)
    requires Recorded(attempts, lastSeen) && lastSeen < next.version
    ensures Recorded(attempts + [next], next.version)
  {}

  lemma RecordedRaise(attempts: seq<Attempt>, lastSeen: int, version: int)
    requires Recorded(attempts, lastSeen) && lastSeen <= version
    ensures Recorded(attempts, version)
  {}

  class Target {
    const own: Namespace
    const router: Router
    const extract: (string, string, string) -> Option<Fields>
    /** The last-seen-version file; None when it is absent or unreadable. */
    var lastSeen: Option<int>
    /** Every attempt at activation so far. */
    ghost var attempts: seq<Attempt>

    constructor (own: Namespace, router: Router, extract: (string, string, string) -> Option<Fields>)
      ensures this.own == own && this.router == router && this.extract == extract
      ensures lastSeen == None && attempts == []
    {
      this.own := own;
      this.router := router;
      this.extract := extract;
      lastSeen := None;
      attempts := [];
    }

    function LastSeen(): int
      reads this`lastSeen
    {
      if lastSeen.Some? then lastSeen.value else -1
    }

    function Seen(): View
      reads this`lastSeen, router`config
    {
      View(LastSeen(), router.config)
    }

    /** The field reader, at the prefixes now in force. */
    function Reader(): FieldReader
      reads router`prefixFile, router`dataFile
    {
      FieldReader(extract, router.ReadPrefix(), router.ReadData())
    }

    /** The field reader reports the prefixes it was given and validates its fields. */
    ghost predicate ReadsPrefixes() {
      forall text, p, d {:trigger extract(text, p, d)} :: extract(text, p, d).Some? ==>
        && extract(text, p, d).value.namespacePrefix == p && extract(text, p, d).value.publishPrefix == d
        && ValidCandidate(CandidateOf(extract(text, p, d).value))
    }

    ghost predicate Valid()
      reads this, router
    {
      && router.Valid() && Trim(router.ReadPrefix()) == router.ReadPrefix()
      && ReadsPrefixes()
      && Recorded(attempts, LastSeen())
    }

    /** The field checks and the activation of a text whose version has been recorded; None
        when it is refused before activation. */
    method Judge(rendered: string, env: Outcomes) returns (status: Option<Status>)
      requires router.Valid() && Trim(router.ReadPrefix()) == router.ReadPrefix() && ReadsPrefixes()
      modifies router`config, router`prefixFile, router`dataFile, router`lastKnownGood, router`running
      ensures router.Valid() && Trim(router.ReadPrefix()) == router.ReadPrefix()
      ensures Reader() == old(Reader())
      ensures var fields := Reader().At(rendered);
              status == if fields.Some? && CandidateError(own, fields.value, Reader().At(old(router.config))).None?
                        then Some(Verdict(CandidateOf(fields.value), true, env)) else None
      ensures router.config == if status == Some(Applied) then rendered else old(router.config)
      ensures status == Some(Applied) ==> router.running == Some(rendered)
    {
      hide Trim, ValidCandidate, CandidateError, Verdict, Succeeds, Router.Valid;
      var fields := Reader().At(rendered);
      if fields.None? {
        return None;
      }
      var current := Reader().At(router.config);
      if CandidateError(own, fields.value, current).Some? {
        return None;
      }
      var outcome := router.Apply(rendered, CandidateOf(fields.value), true, env);
      return Some(outcome);
    }

    /** `_handle_config_push`. The version is recorded before the text is judged, so that a
        version reaches activation at most once whatever becomes of it. */
    method HandleConfigPush(cert: ParentCert, e: Envelope, env: Outcomes) returns (report: Report)
      requires Valid()
      modifies this`lastSeen, this`attempts, router`config, router`prefixFile, router`dataFile, router`lastKnownGood, router`running
      ensures Valid()
      ensures var due := SignedFresh(cert, old(LastSeen()), e);
              && LastSeen() == (if due then e.payload.version.value else old(LastSeen()))
              && (if due && FieldsPass(own, Reader(), old(router.config), e.payload.config.value)
                  then
                    && |attempts| == |old(attempts)| + 1 && attempts[..|old(attempts)|] == old(attempts)
                    && var a := attempts[|old(attempts)|];
                       && a.version == e.payload.version.value && a.config == e.payload.config.value
                       && router.config == (if a.status == Applied then a.config else old(router.config))
                       && report == (match a.status
                                     case Applied => ReportOk(a.version)
                                     case RolledBack => ReportRolledBack(a.version)
                                     case Raised => Unreported
                                     case _ => ReportRejected)
                  else
                    && attempts == old(attempts) && router.config == old(router.config)
                    && report == if cert.NoCert? && !e.Malformed? then Unreported else ReportRejected)
      ensures Seen() == Step(own, Reader(), old(Seen()), Push(cert, e, env))
      ensures attempts == old(attempts) + (match AttemptOf(own, Reader(), old(Seen()), Push(cert, e, env))
                                           case Some(a) => [a] case None => [])
      ensures Reader() == old(Reader())
      ensures report == ReportOn(Receive(cert, old(LastSeen()), e), AttemptOf(own, Reader(), old(Seen()), Push(cert, e, env)))
      ensures report.ReportOk? <==> |attempts| > |old(attempts)| && attempts[|attempts| - 1].status == Applied
      ensures report.ReportOk? ==> router.running == Some(router.config) && router.config == attempts[|attempts| - 1].config
    {
      AttemptedExactly(own, Reader(), Seen(), Push(cert, e, env));
      ReceiveExactly(cert, LastSeen(), e);
      hide Trim, Recorded, CandidateError, Verify, Verdict, Router.Valid, ReadsPrefixes, FieldsPass, SignedFresh;
      if e.Malformed? {
        return ReportRejected;
      }
      if cert.NoCert? {
        return Unreported;
      }
      var verified := Verify(e, cert, ConfigPurpose);
      if verified.None? {
        return ReportRejected;
      }
      var payload := verified.value;
      if payload.version.None? || payload.version.value < 0 {
        return ReportRejected;
      }
      if payload.config.None? {
        return ReportRejected;
      }
      var version, rendered := payload.version.value, payload.config.value;
      if version <= LastSeen() {
        return ReportRejected;
      }
      ghost var before := LastSeen();
      RecordedRaise(attempts, before, version);
      lastSeen := Some(version);
      var outcome := Judge(rendered, env);
      if outcome.None? {
        return ReportRejected;
      }
      ghost var attempt := Attempt(version, rendered, Reader().At(rendered).value, outcome.value);
      RecordedAppend(attempts, before, attempt);
      attempts := attempts + [attempt];
      return match outcome.value
        case Applied => ReportOk(version)
        case RolledBack => ReportRolledBack(version)
        case Raised => Unreported
        case _ => ReportRejected;
    }
  }
}
