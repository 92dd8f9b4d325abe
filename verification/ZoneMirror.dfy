/** Alert zones: unchanged zones are re-sent only now and then, vanished ones get a
    tombstone, and a subscriber whose entries expire still holds exactly the current zones. */
module ZoneMirror {
  import opened Picture
  import opened Sequences

  /** A zone track; its content is everything but its time. */
  datatype Zone = Zone(prefix: string, content: string)

  datatype Sent = Sent(digest: string, time: real)

  type Ledger = map<Uid, Sent>

  /** An unchanged zone that was sent a short while ago. */
  predicate Skips(sent: Ledger, uid: Uid, zone: Zone, now: real, refresh: real) {
    uid in sent && sent[uid].digest == zone.content && now - sent[uid].time < refresh
  }

  /** The ledger after a cycle. */
  function Next(sent: Ledger, zones: map<Uid, Zone>, now: real, refresh: real): Ledger {
    map u | u in zones :: if Skips(sent, u, zones[u], now, refresh) then sent[u] else Sent(zones[u].content, now)
  }

  function Due(sent: Ledger, zones: map<Uid, Zone>, now: real, refresh: real): set<Uid> {
    set u | u in zones && !Skips(sent, u, zones[u], now, refresh)
  }

  /** What the subscriber holds of a ledger. */
  function ShownOf(sent: Ledger): Screen {
    map u | u in sent :: Shown(sent[u].digest, sent[u].time)
  }

  /** The subscriber draws exactly these zones, each as it is now. */
  ghost predicate Draws(screen: Screen, zones: map<Uid, Zone>, now: real, stale: real) {
    && (forall u :: Visible(screen, u, now, stale) <==> u in zones)
    && (forall u | u in zones && u in screen :: screen[u].content == zones[u].content)
  }

  class ZonePublisher {
    const refresh: real
    var zoneSent: Ledger
    var knownZones: map<Uid, Zone>
    var wire: seq<Message>

    constructor (refresh: real)
      ensures Valid() && this.refresh == refresh && wire == [] && knownZones == map[]
    {
      this.refresh := refresh;
      zoneSent, knownZones, wire := map[], map[], [];
    }

    /** A faithful network makes the subscriber's picture what the ledger says. */
    ghost predicate Valid()
      reads this
    {
      ReceiveAll(wire) == ShownOf(zoneSent) && zoneSent.Keys == knownZones.Keys
    }

    lemma ValidMeans()
      ensures Valid() <==> ReceiveAll(wire) == ShownOf(zoneSent) && zoneSent.Keys == knownZones.Keys
    {}

    /** Puts the zones that are due, in any order. */
    method PutDue(zones: map<Uid, Zone>, now: real)
      requires ReceiveAll(wire) == ShownOf(zoneSent)
      modifies this`zoneSent, this`wire
      ensures zoneSent == Overwritten(old(zoneSent), Next(old(zoneSent), zones, now, refresh), zones.Keys)
      ensures ReceiveAll(wire) == ShownOf(zoneSent)
      ensures old(wire) <= wire && |wire| == |old(wire)| + |Due(old(zoneSent), zones, now, refresh)|
    {
      hide *;
      ghost var before, next := zoneSent, Next(zoneSent, zones, now, refresh);
      ghost var due := Due(zoneSent, zones, now, refresh);
      var rest := zones.Keys;
      ghost var done: set<Uid> := {};
      NextKeys(zoneSent, zones, now, refresh);
      OverwriteNothing(before, next);
      while rest != {}
        invariant done !! rest && done + rest == zones.Keys
        invariant zoneSent == Overwritten(before, next, done)
        invariant ReceiveAll(wire) == ShownOf(zoneSent)
        invariant old(wire) <= wire && |wire| == |old(wire)| + |due * done|
        decreases |rest|
      {
        var uid :| uid in rest;
        MoveElement(done, rest, zones.Keys, uid);
        rest := rest - {uid};
        OverwriteStep(before, next, done, uid);
        NextAt(before, zones, now, refresh, uid);
        OneMoreDue(due, done, uid);
        done := done + {uid};
        if uid in zoneSent && zoneSent[uid].digest == zones[uid].content && now - zoneSent[uid].time < refresh {
          assert Overwritten(before, next, done) == zoneSent;
        } else {
          SendStep(wire, zoneSent, uid, zones[uid].content, now);
          zoneSent := zoneSent[uid := Sent(zones[uid].content, now)];
          wire := wire + [Show(uid, zones[uid].content, now)];
        }
      }
      assert done == zones.Keys && due * done == due;
    }

    /** Tombstones for the zones that are gone, in any order. */
    method Retract(gone: set<Uid>)
      modifies this`wire
      ensures ReceiveAll(wire) == old(ReceiveAll(wire)) - gone
      ensures old(wire) <= wire && |wire| == |old(wire)| + |gone|
    {
      hide ReceiveAll;
      ghost var screen := ReceiveAll(wire);
      var rest := gone;
      while rest != {}
        invariant rest <= gone && ReceiveAll(wire) == screen - (gone - rest)
        invariant old(wire) <= wire && |wire| == |old(wire)| + |gone - rest|
        decreases |rest|
      {
        var uid :| uid in rest;
        assert gone - (rest - {uid}) == (gone - rest) + {uid};
        rest := rest - {uid};
        ReceiveOneMore(wire, Tombstone(uid));
        wire := wire + [Tombstone(uid)];
      }
      assert gone - {} == gone;
    }

    /** The publishing part of one cycle. */
    method Publish(zones: map<Uid, Zone>, now: real)
      requires Valid()
      modifies this
      ensures Valid() && knownZones == zones
      ensures zoneSent == Next(old(zoneSent), zones, now, refresh)
      ensures old(wire) <= wire
      ensures |wire| == |old(wire)| + |Due(old(zoneSent), zones, now, refresh)| + |old(knownZones).Keys - zones.Keys|
    {
      hide *;
      ghost var before, next := zoneSent, Next(zoneSent, zones, now, refresh);
      ValidMeans();
      NextKeys(zoneSent, zones, now, refresh);
      Restrict(before, next, knownZones.Keys - zones.Keys);
      PutDue(zones, now);
      Retract(knownZones.Keys - zones.Keys);
      zoneSent := zoneSent - (zoneSent.Keys - zones.Keys);
      knownZones := zones;
      ValidMeans();
    }
  }

  lemma NextKeys(sent: Ledger, zones: map<Uid, Zone>, now: real, refresh: real)
    ensures Next(sent, zones, now, refresh).Keys == zones.Keys && Due(sent, zones, now, refresh) <= zones.Keys
  {}

  lemma NextAt(sent: Ledger, zones: map<Uid, Zone>, now: real, refresh: real, uid: Uid)
    requires uid in zones
    ensures uid in Next(sent, zones, now, refresh)
    ensures var skips := uid in sent && sent[uid].digest == zones[uid].content && now - sent[uid].time < refresh;
            && (uid in Due(sent, zones, now, refresh) <==> !skips)
            && Next(sent, zones, now, refresh)[uid] == if skips then sent[uid] else Sent(zones[uid].content, now)
  {}

  lemma OneMoreDue(due: set<Uid>, done: set<Uid>, uid: Uid)
    requires uid !in done
    ensures |due * (done + {uid})| == |due * done| + if uid in due then 1 else 0
  {
    assert due * (done + {uid}) == due * done + if uid in due then {uid} else {};
  }

  lemma OverwriteNothing(before: Ledger, next: Ledger)
    ensures Overwritten(before, next, {}) == before
  {}

  /** Dropping the vanished zones from the overwritten ledger leaves the next one, and what
      the tombstones leave on the screen. */
  lemma Restrict(before: Ledger, next: Ledger, gone: set<Uid>)
    requires gone == before.Keys - next.Keys
    ensures var both := Overwritten(before, next, next.Keys);
            && both - (both.Keys - next.Keys) == next
            && ShownOf(both) - gone == ShownOf(next)
  {}

  lemma OverwriteStep(before: Ledger, next: Ledger, done: set<Uid>, uid: Uid)
    requires done <= next.Keys && uid in next && uid !in done
    ensures Overwritten(before, next, done + {uid}) == Overwritten(before, next, done)[uid := next[uid]]
    ensures uid in Overwritten(before, next, done) <==> uid in before
    ensures uid in before ==> Overwritten(before, next, done)[uid] == before[uid]
    ensures uid in before && next[uid] == before[uid] ==> Overwritten(before, next, done + {uid}) == Overwritten(before, next, done)
  {}

  lemma SendStep(wire: seq<Message>, sent: Ledger, uid: Uid, content: string, now: real)
    requires ReceiveAll(wire) == ShownOf(sent)
    ensures ReceiveAll(wire + [Show(uid, content, now)]) == ShownOf(sent[uid := Sent(content, now)])
  {}

  ghost function Overwritten(before: Ledger, next: Ledger, done: set<Uid>): Ledger
    requires done <= next.Keys
  {
    map u | u in before.Keys + done :: if u in done then next[u] else before[u]
  }

  /** Until the next cycle is due, the subscriber draws exactly the zones of the last one,
      whatever was sent before it. */
  lemma PictureIsCurrent(sent: Ledger, zones: map<Uid, Zone>, cycle: real, now: real, refresh: real, gap: real, stale: real)
    requires refresh + gap <= stale && gap < stale
    requires cycle <= now <= cycle + gap
    ensures Draws(ShownOf(Next(sent, zones, cycle, refresh)), zones, now, stale)
  {}

  // ----- whole runs, and why the bound is needed -----

  datatype Cycle = Cycle(zones: map<Uid, Zone>, time: real)

  function RunLedger(cycles: seq<Cycle>, refresh: real): Ledger {
    if cycles == [] then map[]
    else
      var n := |cycles| - 1;
      Next(RunLedger(cycles[..n], refresh), cycles[n].zones, cycles[n].time, refresh)
  }

  predicate Paced(cycles: seq<Cycle>, gap: real) {
    forall i | 0 < i < |cycles| :: cycles[i - 1].time <= cycles[i].time <= cycles[i - 1].time + gap
  }

  /** The cycle in force at a time: the last one so far, less than a gap ago. */
  predicate InForce(cycles: seq<Cycle>, k: nat, now: real, gap: real) {
    k < |cycles| && cycles[k].time <= now <= cycles[k].time + gap && (k + 1 < |cycles| ==> now <= cycles[k + 1].time)
  }

  lemma {:induction false} SomeCycleInForce(cycles: seq<Cycle>, now: real, gap: real) returns (k: nat)
    requires |cycles| > 0 && Paced(cycles, gap)
    requires cycles[0].time <= now <= cycles[|cycles| - 1].time + gap
    ensures InForce(cycles, k, now, gap)
  {
    var n := |cycles| - 1;
    if cycles[n].time <= now {
      k := n;
    } else {
      k := SomeCycleInForce(cycles[..n], now, gap);
    }
  }

  lemma DrawnInForce(cycles: seq<Cycle>, k: nat, now: real, refresh: real, gap: real, stale: real)
    requires InForce(cycles, k, now, gap) && refresh + gap <= stale && gap < stale
    ensures Draws(ShownOf(RunLedger(cycles[..k + 1], refresh)), cycles[k].zones, now, stale)
  {
    assert cycles[..k + 1][..k] == cycles[..k];
    PictureIsCurrent(RunLedger(cycles[..k], refresh), cycles[k].zones, cycles[k].time, now, refresh, gap, stale);
  }

  /** Over a whole paced run, at every moment from the first cycle on, the subscriber draws
      the zones of the cycle in force. */
  lemma MirrorOverRun(cycles: seq<Cycle>, now: real, refresh: real, gap: real, stale: real) returns (k: nat)
    requires |cycles| > 0 && Paced(cycles, gap)
    requires cycles[0].time <= now <= cycles[|cycles| - 1].time + gap
    requires refresh + gap <= stale && gap < stale
    ensures InForce(cycles, k, now, gap)
    ensures Draws(ShownOf(RunLedger(cycles[..k + 1], refresh)), cycles[k].zones, now, stale)
  {
    k := SomeCycleInForce(cycles, now, gap);
    DrawnInForce(cycles, k, now, refresh, gap, stale);
  }

  /** A zone that never changes is sent once, as long as the run is shorter than a refresh. */
  lemma {:induction false} SentOnce(cycles: seq<Cycle>, uid: Uid, zone: Zone, refresh: real)
    requires |cycles| > 0 && forall i | 0 <= i < |cycles| :: uid in cycles[i].zones && cycles[i].zones[uid] == zone
    requires forall i | 0 <= i < |cycles| :: cycles[i].time - cycles[0].time < refresh
    ensures var sent := RunLedger(cycles, refresh);
            uid in sent && sent[uid] == Sent(zone.content, cycles[0].time)
  {
    var n := |cycles| - 1;
    if n > 0 {
      SentOnce(cycles[..n], uid, zone, refresh);
    } else {
      assert cycles[..0] == [];
    }
  }

  /** The bound cannot be relaxed: such a zone goes stale on the screen before the gap after
      the last cycle is over, when that is more than the stale time away from its sending. */
  lemma LaterCyclesAreTooLate(cycles: seq<Cycle>, uid: Uid, zone: Zone, refresh: real, gap: real, stale: real)
    requires |cycles| > 0 && forall i | 0 <= i < |cycles| :: uid in cycles[i].zones && cycles[i].zones[uid] == zone
    requires forall i | 0 <= i < |cycles| :: cycles[i].time - cycles[0].time < refresh
    requires cycles[|cycles| - 1].time + gap >= cycles[0].time + stale
    ensures !Draws(ShownOf(RunLedger(cycles, refresh)), cycles[|cycles| - 1].zones, cycles[|cycles| - 1].time + gap, stale)
  {
    SentOnce(cycles, uid, zone, refresh);
    var last := cycles[|cycles| - 1];
    assert !Visible(ShownOf(RunLedger(cycles, refresh)), uid, last.time + gap, stale);
  }
  /** How far n gaps reach. */
  function Reach(gap: real, n: nat): real {
    if n == 0 then 0.0 else Reach(gap, n - 1) + gap
  }

  lemma {:induction false} ReachIsProduct(gap: real, n: nat)
    ensures Reach(gap, n) == gap * (n as real)
  {
    if n > 0 {
      ReachIsProduct(gap, n - 1);
    }
  }

  lemma EnoughGaps(gap: real, last: real) returns (n: nat)
    requires gap > 0.0 && last >= 0.0
    ensures last <= Reach(gap, n)
  {
    var ratio := last / gap;
    assert ratio * gap == last && ratio >= 0.0;
    n := ratio.Floor + 1;
    ReachIsProduct(gap, n);
    assert n as real >= ratio;
    ProductGrows(gap, ratio, n as real);
  }

  lemma ProductGrows(gap: real, a: real, b: real)
    requires gap > 0.0 && a <= b
    ensures a * gap <= gap * b
  {}

  /** Cycles with always the same zones, from time 0 to `last`, at most `gap` apart. */
  function Steady(zones: map<Uid, Zone>, last: real, gap: real, n: nat): seq<Cycle>
    requires gap > 0.0 && 0.0 <= last <= Reach(gap, n)
    decreases n
  {
    if last == 0.0 then [Cycle(zones, 0.0)]
    else if last <= gap then [Cycle(zones, 0.0), Cycle(zones, last)]
    else Steady(zones, last - gap, gap, n - 1) + [Cycle(zones, last)]
  }

  predicate SteadyTo(cycles: seq<Cycle>, zones: map<Uid, Zone>, last: real) {
    && |cycles| > 0 && cycles[0].time == 0.0 && cycles[|cycles| - 1].time == last
    && forall i | 0 <= i < |cycles| :: cycles[i].zones == zones && 0.0 <= cycles[i].time <= last
  }

  lemma {:induction false} SteadyIsPaced(zones: map<Uid, Zone>, last: real, gap: real, n: nat)
    requires gap > 0.0 && 0.0 <= last <= Reach(gap, n)
    ensures SteadyTo(Steady(zones, last, gap, n), zones, last) && Paced(Steady(zones, last, gap, n), gap)
    decreases n
  {
    if last > gap {
      SteadyIsPaced(zones, last - gap, gap, n - 1);
      PacedAppend(Steady(zones, last - gap, gap, n - 1), zones, last, gap);
    }
  }

  lemma PacedAppend(cycles: seq<Cycle>, zones: map<Uid, Zone>, last: real, gap: real)
    requires gap > 0.0 && SteadyTo(cycles, zones, last - gap) && Paced(cycles, gap)
    ensures SteadyTo(cycles + [Cycle(zones, last)], zones, last) && Paced(cycles + [Cycle(zones, last)], gap)
  {}

  /** Whatever the zones and however the cycles are paced, the subscriber draws the zones of
      the cycle in force. */
  ghost predicate AlwaysDraws(refresh: real, gap: real, stale: real) {
    forall cycles: seq<Cycle>, k: nat, now: real | Paced(cycles, gap) && InForce(cycles, k, now, gap) ::
      Draws(ShownOf(RunLedger(cycles[..k + 1], refresh)), cycles[k].zones, now, stale)
  }

  /** The refresh time is short enough exactly when refresh and gap together do not exceed
      the stale time. */
  lemma MirrorBoundExact(refresh: real, gap: real, stale: real)
    requires refresh > 0.0 && gap > 0.0
    ensures AlwaysDraws(refresh, gap, stale) <==> refresh + gap <= stale
  {
    if refresh + gap <= stale {
      forall cycles: seq<Cycle>, k: nat, now: real | Paced(cycles, gap) && InForce(cycles, k, now, gap)
        ensures Draws(ShownOf(RunLedger(cycles[..k + 1], refresh)), cycles[k].zones, now, stale)
      {
        DrawnInForce(cycles, k, now, refresh, gap, stale);
      }
    } else {
      var last := if stale <= gap then 0.0 else stale - gap;
      var n := EnoughGaps(gap, last);
      var zone := Zone("", "");
      var cycles := Steady(map["z" := zone], last, gap, n);
      SteadyIsPaced(map["z" := zone], last, gap, n);
      var k := |cycles| - 1;
      assert cycles[..k + 1] == cycles;
      assert InForce(cycles, k, last + gap, gap);
      LaterCyclesAreTooLate(cycles, "z", zone, refresh, gap, stale);
    }
  }
}
