/** Threat tracks that a radar match suppresses: withdrawn once when suppression begins,
    published again when it lapses. */
module ThreatSuppression {
  import opened Results
  import opened Picture

  datatype Track = Track(prefix: string, uid: Uid, content: string)

  const TRAIL_SUFFIX := "-TRAIL"

  /** A trail is suppressed with the threat that it belongs to. */
  function ThreatOf(uid: Uid): Uid {
    if |uid| >= |TRAIL_SUFFIX| && uid[|uid| - |TRAIL_SUFFIX|..] == TRAIL_SUFFIX then uid[..|uid| - |TRAIL_SUFFIX|] else uid
  }

  type Expiries = map<Uid, real>

  function Expiry(until: Expiries, uid: Uid): real {
    if uid in until then until[uid] else 0.0
  }

  predicate Suppressed(until: Expiries, uid: Uid, now: real) {
    Expiry(until, ThreatOf(uid)) > now
  }

  // ----- histories of decisions -----

  /** One track at one poll: suppressed or not. */
  datatype Decision = Decision(uid: Uid, suppressed: bool)

  /** The decisions about one track, in order. */
  function About(decisions: seq<Decision>, uid: Uid): seq<bool> {
    if decisions == [] then []
    else
      var last := decisions[|decisions| - 1];
      About(decisions[..|decisions| - 1], uid) + if last.uid == uid then [last.suppressed] else []
  }

  /** How many times suppression began. */
  function Episodes(about: seq<bool>): nat {
    if about == [] then 0
    else
      var n := |about| - 1;
      Episodes(about[..n]) + if about[n] && (n == 0 || !about[n - 1]) then 1 else 0
  }

  predicate EndsSuppressed(about: seq<bool>) {
    about != [] && about[|about| - 1]
  }

  predicate EndsPublished(about: seq<bool>) {
    about != [] && !about[|about| - 1]
  }

  lemma AboutOneMore(decisions: seq<Decision>, d: Decision, uid: Uid)
    ensures About(decisions + [d], uid) == About(decisions, uid) + if d.uid == uid then [d.suppressed] else []
  {}

  lemma EpisodesOneMore(about: seq<bool>, next: bool)
    ensures Episodes(about + [next]) == Episodes(about) + if next && !EndsSuppressed(about) then 1 else 0
  {}

  /** Between two withdrawals of a threat it was published. */
  ghost predicate Separated(wire: seq<Message>, uid: Uid) {
    forall i, j | 0 <= i < j < |wire| && wire[i] == wire[j] == Tombstone(uid) :: ShownBetween(wire, uid, i, j)
  }

  ghost predicate ShownBetween(wire: seq<Message>, uid: Uid, i: nat, j: nat) {
    exists k | i < k < j && k < |wire| :: wire[k].Show? && wire[k].uid == uid
  }

  /** After each withdrawal it was published again. */
  ghost predicate Returned(wire: seq<Message>, uid: Uid) {
    forall i | 0 <= i < |wire| && wire[i] == Tombstone(uid) :: ShownBetween(wire, uid, i, |wire|)
  }

  lemma SeparatedStep(wire: seq<Message>, m: Message, uid: Uid)
    requires Separated(wire, uid) && (m == Tombstone(uid) ==> Returned(wire, uid))
    ensures Separated(wire + [m], uid)
    ensures m.Show? && m.uid == uid ==> Returned(wire + [m], uid)
    ensures m.uid != uid && Returned(wire, uid) ==> Returned(wire + [m], uid)
  {
    var all := wire + [m];
    forall i, j | 0 <= i < j <= |wire| && ShownBetween(wire, uid, i, j)
      ensures ShownBetween(all, uid, i, j)
    {
      var k :| i < k < j && k < |wire| && wire[k].Show? && wire[k].uid == uid;
      assert all[k] == wire[k];
    }
    forall i, j | 0 <= i < j < |all| && all[i] == all[j] == Tombstone(uid)
      ensures ShownBetween(all, uid, i, j)
    {
      if j < |wire| {
        assert ShownBetween(wire, uid, i, j);
      } else {
        assert ShownBetween(wire, uid, i, |wire|);
      }
    }
    forall i | 0 <= i < |all| && all[i] == Tombstone(uid) && ((m.Show? && m.uid == uid) || (m.uid != uid && Returned(wire, uid)))
      ensures ShownBetween(all, uid, i, |all|)
    {
      if m.Show? && m.uid == uid {
        assert all[|wire|] == m;
      } else {
        assert ShownBetween(wire, uid, i, |wire|);
        var k :| i < k < |wire| && wire[k].Show? && wire[k].uid == uid;
        assert all[k] == wire[k];
      }
    }
  }

  /** The wire and the retracted set agree with the decisions so far. */
  ghost predicate Faithful(decisions: seq<Decision>, wire: seq<Message>, retracted: set<Uid>, uid: Uid) {
    && (uid in retracted <==> EndsSuppressed(About(decisions, uid)))
    && (uid in ReceiveAll(wire) <==> EndsPublished(About(decisions, uid)))
    && Tombstones(wire, uid) == Episodes(About(decisions, uid))
    && Separated(wire, uid) && (uid !in retracted ==> Returned(wire, uid))
  }

  /** What one decision sends, and what it leaves retracted. */
  function News(d: Decision, content: string, now: real, retracted: set<Uid>): seq<Message> {
    if !d.suppressed then [Show(d.uid, content, now)] else if d.uid in retracted then [] else [Tombstone(d.uid)]
  }

  function Retracted(d: Decision, retracted: set<Uid>): set<Uid> {
    if d.suppressed then retracted + {d.uid} else retracted - {d.uid}
  }

  lemma FaithfulStep(decisions: seq<Decision>, wire: seq<Message>, retracted: set<Uid>, d: Decision, content: string, now: real, uid: Uid)
    requires Faithful(decisions, wire, retracted, uid)
    ensures Faithful(decisions + [d], wire + News(d, content, now, retracted), Retracted(d, retracted), uid)
  {
    var news := News(d, content, now, retracted);
    var about := About(decisions, uid);
    AboutOneMore(decisions, d, uid);
    WireStep(wire, news, uid);
    hide About, Episodes, ReceiveAll, Tombstones, Separated, Returned;
    if news == [] {
      assert wire + news == wire;
    } else {
      assert news == [news[0]];
      SeparatedStep(wire, news[0], uid);
    }
    if d.uid == uid {
      EpisodesOneMore(about, d.suppressed);
    } else {
      assert about + [] == about;
    }
  }

  lemma WireStep(wire: seq<Message>, news: seq<Message>, uid: Uid)
    requires |news| <= 1
    ensures uid in ReceiveAll(wire + news) <==> if news == [] || news[0].uid != uid then uid in ReceiveAll(wire) else news[0].Show?
    ensures Tombstones(wire + news, uid) == Tombstones(wire, uid) + if news == [Tombstone(uid)] then 1 else 0
  {
    if news == [] {
      assert wire + news == wire;
    } else {
      assert news == [news[0]];
      ReceiveOneMore(wire, news[0]);
      TombstonesOneMore(wire, news[0], uid);
    }
  }

  lemma AllFaithfulStep(decisions: seq<Decision>, wire: seq<Message>, retracted: set<Uid>, d: Decision, content: string, now: real)
    requires forall uid :: Faithful(decisions, wire, retracted, uid)
    ensures forall uid :: Faithful(decisions + [d], wire + News(d, content, now, retracted), Retracted(d, retracted), uid)
  {
    hide Faithful;
    forall uid: Uid
      ensures Faithful(decisions + [d], wire + News(d, content, now, retracted), Retracted(d, retracted), uid)
    {
      FaithfulStep(decisions, wire, retracted, d, content, now, uid);
    }
  }

  function Decisions(tracks: seq<Track>, until: Expiries, now: real): seq<Decision> {
    seq(|tracks|, i requires 0 <= i < |tracks| => Decision(tracks[i].uid, Suppressed(until, tracks[i].uid, now)))
  }

  lemma {:induction false} LastDecision(decisions: seq<Decision>, news: seq<Decision>, uid: Uid, suppressed: bool)
    requires (exists i :: 0 <= i < |news| && news[i].uid == uid)
    requires forall i | 0 <= i < |news| && news[i].uid == uid :: news[i].suppressed == suppressed
    ensures var about := About(decisions + news, uid);
            about != [] && about[|about| - 1] == suppressed
  {
    var n := |news| - 1;
    assert (decisions + news)[..|decisions| + n] == decisions + news[..n];
    if news[n].uid != uid {
      LastDecision(decisions, news[..n], uid, suppressed);
    }
  }

  lemma ShownUnlessSuppressed(before: seq<Decision>, tracks: seq<Track>, until: Expiries, now: real,
                               wire: seq<Message>, retracted: set<Uid>, k: nat)
    requires k < |tracks|
    requires Faithful(before + Decisions(tracks, until, now), wire, retracted, tracks[k].uid)
    ensures tracks[k].uid in ReceiveAll(wire) <==> !Suppressed(until, tracks[k].uid, now)
  {
    var news := Decisions(tracks, until, now);
    assert news[k].uid == tracks[k].uid;
    LastDecision(before, news, tracks[k].uid, Suppressed(until, tracks[k].uid, now));
  }

  lemma FaithfulIsSeparated(decisions: seq<Decision>, wire: seq<Message>, retracted: set<Uid>, uid: Uid)
    requires Faithful(decisions, wire, retracted, uid)
    ensures Separated(wire, uid)
  {}

  /** Among the first tracks of a poll, each unsuppressed one is drawn as it was sent last. */
  ghost predicate ShowsLatest(screen: Screen, tracks: seq<Track>, until: Expiries, now: real, i: nat)
    requires i <= |tracks|
  {
    forall k | 0 <= k < i && !Suppressed(until, tracks[k].uid, now) && (forall j | k < j < i :: tracks[j].uid != tracks[k].uid) ::
      ShowsAs(screen, tracks[k].uid, Shown(tracks[k].content, now))
  }

  /** What none of them speaks of is drawn as before. */
  ghost predicate LeavesOthers(before: Screen, after: Screen, tracks: seq<Track>, i: nat)
    requires i <= |tracks|
  {
    forall u, x | forall k | 0 <= k < i :: tracks[k].uid != u :: ShowsAs(after, u, x) <==> ShowsAs(before, u, x)
  }

  lemma ShowNothing(screen: Screen, tracks: seq<Track>, until: Expiries, now: real)
    ensures ShowsLatest(screen, tracks, until, now, 0) && LeavesOthers(screen, screen, tracks, 0)
  {}

  lemma NewsIs(d: Decision, content: string, now: real, retracted: set<Uid>)
    ensures News(d, content, now, retracted)
            == if !d.suppressed then [Show(d.uid, content, now)] else if d.uid in retracted then [] else [Tombstone(d.uid)]
  {}

  lemma ShowStep(before: Screen, wire: seq<Message>, tracks: seq<Track>, until: Expiries, now: real, retracted: set<Uid>, i: nat)
    requires i < |tracks| && ShowsLatest(ReceiveAll(wire), tracks, until, now, i) && LeavesOthers(before, ReceiveAll(wire), tracks, i)
    ensures var track := tracks[i];
            var after := ReceiveAll(wire + News(Decision(track.uid, Suppressed(until, track.uid, now)), track.content, now, retracted));
            ShowsLatest(after, tracks, until, now, i + 1) && LeavesOthers(before, after, tracks, i + 1)
  {
    hide ReceiveAll, ShowsAs, Suppressed;
    var track := tracks[i];
    var d := Decision(track.uid, Suppressed(until, track.uid, now));
    var news := News(d, track.content, now, retracted);
    if news == [] {
      assert wire + news == wire;
    } else {
      OtherEntriesStay(wire, news[0]);
      assert news == [news[0]];
    }
    var screen, after := ReceiveAll(wire), ReceiveAll(wire + news);
    assert forall u, x | u != track.uid :: ShowsAs(after, u, x) <==> ShowsAs(screen, u, x);
    assert !d.suppressed ==> ShowsAs(after, track.uid, Shown(track.content, now));
    hide News;
  }

  class ThreatPublisher {
    const ttl: real
    /** When the announced suppression of a threat ends. */
    var until: Expiries
    var retracted: set<Uid>
    var wire: seq<Message>
    ghost var decisions: seq<Decision>

    constructor (ttl: real)
      ensures Valid() && this.ttl == ttl && until == map[] && decisions == [] && wire == []
    {
      this.ttl := ttl;
      until, retracted, wire, decisions := map[], {}, [], [];
    }

    /** A threat is on display exactly when it was last published, and it was withdrawn
        exactly once for each time its suppression began. */
    ghost predicate Valid()
      reads this
    {
      forall uid :: Faithful(decisions, wire, retracted, uid)
    }

    /** `on_sample`: an announcement; None when its payload names no threat. */
    method OnSample(uid: Option<Uid>, now: real)
      modifies this`until
      ensures forall u, t :: Suppressed(until, u, t) <==>
                if uid.Some? && uid.value != "" && ThreatOf(u) == uid.value then t < now + ttl else Suppressed(old(until), u, t)
      ensures uid.Some? && uid.value != "" ==> forall t :: Suppressed(until, uid.value + "-TRAIL", t) <==> t < now + ttl
      ensures uid.None? || uid.value == "" ==> until == old(until)
    {
      assert uid.Some? ==> ThreatOf(uid.value + "-TRAIL") == uid.value;
      if uid.Some? && uid.value != "" {
        until := until[uid.value := now + ttl];
      }
    }

    /** `publish_threats`. */
    method Publish(tracks: seq<Track>, now: real)
      requires Valid()
      modifies this`retracted, this`wire, this`decisions
      ensures Valid() && old(wire) <= wire
      ensures decisions == old(decisions) + Decisions(tracks, until, now)
      ensures forall k | 0 <= k < |tracks| :: tracks[k].uid in ReceiveAll(wire) <==> !Suppressed(until, tracks[k].uid, now)
      ensures ShowsLatest(ReceiveAll(wire), tracks, until, now, |tracks|)
      ensures LeavesOthers(old(ReceiveAll(wire)), ReceiveAll(wire), tracks, |tracks|)
      ensures forall uid :: Separated(wire, uid)
    {
      hide Faithful, Suppressed, ReceiveAll, ShowsLatest, LeavesOthers, News;
      ShowNothing(ReceiveAll(wire), tracks, until, now);
      for i := 0 to |tracks|
        invariant Valid() && until == old(until) && old(wire) <= wire
        invariant decisions == old(decisions) + Decisions(tracks, until, now)[..i]
        invariant ShowsLatest(ReceiveAll(wire), tracks, until, now, i)
        invariant LeavesOthers(old(ReceiveAll(wire)), ReceiveAll(wire), tracks, i)
      {
        var track := tracks[i];
        var suppressed := Suppressed(until, track.uid, now);
        ghost var d := Decision(track.uid, suppressed);
        AllFaithfulStep(decisions, wire, retracted, d, track.content, now);
        ghost var told, after := wire + News(d, track.content, now, retracted), Retracted(d, retracted);
        ShowStep(old(ReceiveAll(wire)), wire, tracks, until, now, retracted, i);
        NewsIs(d, track.content, now, retracted);
        decisions := decisions + [d];
        if suppressed {
          if track.uid !in retracted {
            retracted := retracted + {track.uid};
            wire := wire + [Tombstone(track.uid)];
          } else {
            assert retracted + {track.uid} == retracted && wire + [] == wire;
          }
        } else {
          retracted := retracted - {track.uid};
          wire := wire + [Show(track.uid, track.content, now)];
        }
        assert wire == told && retracted == after;
      }
      forall uid
        ensures Separated(wire, uid)
      {
        FaithfulIsSeparated(decisions, wire, retracted, uid);
      }
      assert Decisions(tracks, until, now)[..|tracks|] == Decisions(tracks, until, now);
      forall k | 0 <= k < |tracks|
        ensures tracks[k].uid in ReceiveAll(wire) <==> !Suppressed(until, tracks[k].uid, now)
      {
        ShownUnlessSuppressed(old(decisions), tracks, until, now, wire, retracted, k);
      }
    }
  }
}
