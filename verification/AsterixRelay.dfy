/** The relay of raw ASTERIX topics: the category named by a topic, the check of the frame,
    and the duplicate filter that stops reflections. */
module AsterixRelay {
  import opened Results
  import opened Text
  import opened AsterixFrames
  import opened DuplicateFilter

  datatype KeyError = OutsideRoot | NotNumeric | OutOfRange

  predicate Digit(c: char) {
    '0' <= c <= '9'
  }

  function Number(digits: string): nat
    requires forall c | c in digits :: Digit(c)
  {
    if digits == "" then 0
    else
      assert Digit(digits[|digits| - 1]);
      var n := |digits| - 1;
      10 * Number(digits[..n]) + (digits[n] as int - '0' as int)
  }

  function Decimal(n: nat): (s: string)
    ensures s != "" && (forall c | c in s :: Digit(c)) && Number(s) == n
  {
    var last := [('0' as int + n % 10) as char];
    if n < 10 then
      assert last[..0] == "";
      last
    else
      var s := Decimal(n / 10) + last;
      assert s[..|s| - 1] == Decimal(n / 10);
      s
  }

  function Prefix(root: string): string {
    Strip(root) + "/raw/asterix/cat"
  }

  /** `category_from_key`. */
  function CategoryFromKey(key: string, root: string): Result<nat, KeyError> {
    if !(Prefix(root) <= key) then Err(OutsideRoot)
    else
      var suffix := key[|Prefix(root)|..];
      if suffix == "" || exists c | c in suffix :: !Digit(c) then Err(NotNumeric)
      else if Number(suffix) > 255 then Err(OutOfRange)
      else Ok(Number(suffix))
  }

  /** The topics of a root that name a category: decimal digits behind the fixed part, up to 255. */
  lemma CategoryExactly(key: string, root: string, category: nat)
    ensures CategoryFromKey(key, root) == Ok(category) <==>
            exists digits | digits != "" && (forall c | c in digits :: Digit(c)) ::
              key == Strip(root) + "/raw/asterix/cat" + digits && Number(digits) == category && category <= 255
  {
    hide Strip, Number;
    var p := Prefix(root);
    if CategoryFromKey(key, root) == Ok(category) {
      var digits := key[|p|..];
      assert key == Strip(root) + "/raw/asterix/cat" + digits && Number(digits) == category;
    }
    forall digits | digits != "" && (forall c | c in digits :: Digit(c))
                    && key == Strip(root) + "/raw/asterix/cat" + digits && Number(digits) == category && category <= 255
      ensures CategoryFromKey(key, root) == Ok(category)
    {
      assert key == p + digits && key[|p|..] == digits;
    }
  }

  function Destination(root: string, category: nat): string {
    Prefix(root) + Decimal(category)
  }

  /** The topic that one relay puts to is read by the next one as the same category. */
  lemma CategoryReadsBack(root: string, category: nat)
    ensures CategoryFromKey(Destination(root, category), root) == if category <= 255 then Ok(category) else Err(OutOfRange)
  {}

  datatype RelayError = BadKey(error: KeyError) | BadFrame(check: FrameCheck)

  /** The destination of an acceptable sample. */
  function Route(sourceKey: string, frame: seq<Byte>, upstreamRoot: string, localRoot: string): Result<string, RelayError> {
    match CategoryFromKey(sourceKey, upstreamRoot)
    case Err(e) => Err(BadKey(e))
    case Ok(category) =>
      var check := ValidateFrame(frame, category);
      if check != FrameOk then Err(BadFrame(check)) else Ok(Destination(localRoot, category))
  }

  /** A sample is routed exactly when its topic names the category that its frame carries and the
      frame is a block; it goes to the topic of that category under the local root. */
  lemma RouteExactly(sourceKey: string, frame: seq<Byte>, upstreamRoot: string, localRoot: string, category: nat)
    requires CategoryFromKey(sourceKey, upstreamRoot) == Ok(category)
    ensures var r := Route(sourceKey, frame, upstreamRoot, localRoot);
            && (r.Ok? <==> |frame| >= 3 && frame[0] as int == category && 256 * (frame[1] as int) + frame[2] as int == |frame|)
            && (r.Ok? ==> r.value == Strip(localRoot) + "/raw/asterix/cat" + Decimal(category))
  {
    ValidateExactly(frame, category);
    hide CategoryFromKey, ValidateFrame, Decimal, Strip;
  }

  datatype Sent = Sent(topic: string, frame: seq<Byte>, at: nat)

  /** Every put is of the sighting it names, which the filter had not seen before. */
  ghost predicate FirstTime(history: seq<Sighting>, lifetime: real, limit: nat, s: Sent) {
    && s.at < |history| && history[s.at].fingerprint == Fingerprint(s.topic, s.frame)
    && !SeenRecently(history[..s.at], history[s.at].fingerprint, history[s.at].time - lifetime, limit)
  }

  /** What was a first time stays one while the history grows. */
  lemma StillFirst(history: seq<Sighting>, x: Sighting, lifetime: real, limit: nat, sent: seq<Sent>)
    requires forall i | 0 <= i < |sent| :: FirstTime(history, lifetime, limit, sent[i])
    ensures forall i | 0 <= i < |sent| :: FirstTime(history + [x], lifetime, limit, sent[i]) && sent[i].at < |history|
  {
    hide SeenRecently;
    forall i | 0 <= i < |sent|
      ensures FirstTime(history + [x], lifetime, limit, sent[i]) && sent[i].at < |history|
    {
      assert FirstTime(history, lifetime, limit, sent[i]);
      assert (history + [x])[..sent[i].at] == history[..sent[i].at];
    }
  }

  lemma NowFirst(history: seq<Sighting>, x: Sighting, lifetime: real, limit: nat, s: Sent)
    requires s.at == |history| && x.fingerprint == Fingerprint(s.topic, s.frame)
    requires !SeenRecently(history, x.fingerprint, x.time - lifetime, limit)
    ensures FirstTime(history + [x], lifetime, limit, s)
  {
    assert (history + [x])[..|history|] == history;
  }

  class Relay {
    const upstreamRoot: string
    const localRoot: string
    const recent: RecentFrames
    /** What was put to the local session; the position is that of the sighting. */
    ghost var sent: seq<Sent>
    var outbox: seq<(string, seq<Byte>)>

    constructor (upstreamRoot: string, localRoot: string, recent: RecentFrames)
      requires recent.Valid()
      ensures Valid() && this.recent == recent && outbox == []
    {
      this.upstreamRoot, this.localRoot, this.recent := upstreamRoot, localRoot, recent;
      sent, outbox := [], [];
    }

    ghost predicate Valid()
      reads this, recent
    {
      && recent.Valid()
      && |sent| == |outbox|
      && (forall i | 0 <= i < |sent| :: outbox[i] == (sent[i].topic, sent[i].frame))
      && (forall i | 0 <= i < |sent| :: FirstTime(recent.history, recent.lifetime, recent.limit, sent[i]))
      && (forall i, j | 0 <= i < j < |sent| :: sent[i].at < sent[j].at)
    }

    /** `relay_sample`. A bad sample changes nothing; a good one is put unless the filter
        knows it. */
    method RelaySample(sourceKey: string, frame: seq<Byte>, now: real) returns (r: Result<Option<string>, RelayError>)
      requires Valid() && (recent.history != [] ==> recent.history[|recent.history| - 1].time <= now)
      modifies this, recent
      ensures Valid()
      ensures var route := Route(sourceKey, frame, upstreamRoot, localRoot);
              && (route.Err? ==> r == Err(route.error) && outbox == old(outbox) && recent.history == old(recent.history))
              && (route.Ok? ==>
                    var f := Fingerprint(route.value, frame);
                    var known := SeenRecently(old(recent.history), f, now - recent.lifetime, recent.limit);
                    && recent.history == old(recent.history) + [Sighting(f, now)]
                    && r == Ok(if known then None else Some(route.value))
                    && outbox == old(outbox) + if known then [] else [(route.value, frame)])
    {
      hide SeenRecently, Holds, Remembered, Ordered, FirstTime, CategoryFromKey, ValidateFrame, Destination, RecentFrames.Valid;
      var category := CategoryFromKey(sourceKey, upstreamRoot);
      if category.Err? {
        return Err(BadKey(category.error));
      }
      var check := ValidateFrame(frame, category.value);
      if check != FrameOk {
        return Err(BadFrame(check));
      }
      var destination := Destination(localRoot, category.value);
      ghost var before := recent.history;
      var known := recent.Seen(destination, frame, now);
      StillFirst(before, recent.history[|before|], recent.lifetime, recent.limit, sent);
      if known {
        return Ok(None);
      }
      NowFirst(before, recent.history[|before|], recent.lifetime, recent.limit, Sent(destination, frame, |before|));
      outbox := outbox + [(destination, frame)];
      sent := sent + [Sent(destination, frame, |before|)];
      return Ok(Some(destination));
    }
  }

  lemma {:induction false} FewerFingerprints(a: seq<Sighting>, b: seq<Sighting>)
    ensures Fingerprints(b) <= Fingerprints(a + b)
  {
    if b != [] {
      var n := |b| - 1;
      FewerFingerprints(a, b[..n]);
      assert (a + b)[..|a + b| - 1] == a + b[..n];
    }
  }

  lemma {:induction false} FiniteSubset(a: set<Fingerprint>, b: set<Fingerprint>)
    requires a <= b
    ensures |a| <= |b|
  {
    if x :| x in a {
      FiniteSubset(a - {x}, b - {x});
    }
  }

  lemma NotAfter(history: seq<Sighting>, last: nat, f: Fingerprint)
    requires last < |history| && !Holds(history[last + 1..], f)
    ensures forall j | last < j < |history| :: history[j].fingerprint != f
  {}

  /** Any sighting within the lifetime, with too few others since, makes a frame known. */
  lemma AnySightingCounts(history: seq<Sighting>, f: Fingerprint, cutoff: real, limit: nat, i: nat)
    requires Ordered(history) && i < |history| && history[i].fingerprint == f && history[i].time >= cutoff
    requires |Fingerprints(history[i + 1..])| < limit
    ensures SeenRecently(history, f, cutoff, limit)
  {
    assert Holds(history, f) && forall j | i <= j < |history| :: history[j].time >= cutoff;
    hide Holds, Fingerprints, Ordered;
    var last := LastIndex(history, f);
    NotAfter(history, last, f);
    if last > i {
      FewerFingerprints(history[i + 1..last + 1], history[last + 1..]);
      assert history[i + 1..] == history[i + 1..last + 1] + history[last + 1..];
      FiniteSubset(Fingerprints(history[last + 1..]), Fingerprints(history[i + 1..]));
    }
    assert StillRecent(history, f, cutoff, limit, last);
  }

  /** No reflections: a frame is put again to the same topic only when its lifetime is over
      or at least `limit` fingerprints were sighted in between. */
  lemma NoReflection(history: seq<Sighting>, lifetime: real, limit: nat, a: Sent, b: Sent)
    requires Ordered(history) && a.at < b.at && a.topic == b.topic && a.frame == b.frame
    requires FirstTime(history, lifetime, limit, a) && FirstTime(history, lifetime, limit, b)
    ensures history[a.at].time < history[b.at].time - lifetime || |Fingerprints(history[a.at + 1..b.at])| >= limit
  {
    var earlier := history[..b.at];
    assert earlier[a.at + 1..] == history[a.at + 1..b.at];
    if history[a.at].time >= history[b.at].time - lifetime && |Fingerprints(history[a.at + 1..b.at])| < limit {
      AnySightingCounts(earlier, history[b.at].fingerprint, history[b.at].time - lifetime, limit, a.at);
    }
  }
}
