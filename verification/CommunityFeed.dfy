/** Community reports and incident markers: tracks that mirror two feeds, and one event for
    each entry that is new. */
module CommunityFeed {
  import opened Results
  import opened Picture
  import opened Sequences

  datatype Kind = Report | Incident

  datatype Entry = Entry(kind: Kind, prefix: string, content: string)

  type Entries = map<Uid, Entry>

  /** One kind of entries: as fetched, or as they were when the fetch failed. */
  function Part(previous: Entries, kind: Kind, fetched: Option<map<Uid, Entry>>): Entries {
    if fetched.Some? then map u | u in fetched.value :: fetched.value[u].(kind := kind)
    else map u | u in previous && previous[u].kind == kind :: previous[u]
  }

  datatype Poll = Poll(reports: Option<map<Uid, Entry>>, incidents: Option<map<Uid, Entry>>) {
    predicate Complete() {
      reports.Some? && incidents.Some?
    }
  }

  function Current(previous: Entries, poll: Poll): Entries {
    Part(previous, Report, poll.reports) + Part(previous, Incident, poll.incidents)
  }

  /** Whether a feed carries an entry: as fetched, or as before when the fetch failed. */
  predicate Carried(previous: Entries, kind: Kind, fetched: Option<map<Uid, Entry>>, u: Uid) {
    if fetched.Some? then u in fetched.value else u in previous && previous[u].kind == kind
  }

  function CarriedEntry(previous: Entries, kind: Kind, fetched: Option<map<Uid, Entry>>, u: Uid): Entry
    requires Carried(previous, kind, fetched, u)
  {
    if fetched.Some? then Entry(kind, fetched.value[u].prefix, fetched.value[u].content) else previous[u]
  }

  /** Current entries are those that either feed carries; where both do, the incident is meant. */
  lemma CurrentExactly(previous: Entries, poll: Poll)
    ensures forall u :: u in Current(previous, poll) <==>
              Carried(previous, Report, poll.reports, u) || Carried(previous, Incident, poll.incidents, u)
    ensures forall u | Carried(previous, Incident, poll.incidents, u) ::
              Current(previous, poll)[u] == CarriedEntry(previous, Incident, poll.incidents, u)
    ensures forall u | Carried(previous, Report, poll.reports, u) && !Carried(previous, Incident, poll.incidents, u) ::
              Current(previous, poll)[u] == CarriedEntry(previous, Report, poll.reports, u)
  {}

  /** Entries shown, and the entries of the last complete poll. */
  datatype State = State(tracks: Entries, seen: Option<set<Uid>>)

  const INITIAL := State(map[], None)

  function Step(s: State, poll: Poll): State {
    var current := Current(s.tracks, poll);
    State(current, if poll.Complete() then Some(current.Keys) else s.seen)
  }

  predicate Announces(s: State, poll: Poll, uid: Uid) {
    uid in Current(s.tracks, poll) && s.seen.Some? && uid !in s.seen.value
  }

  /** What the subscriber holds of some entries that were all sent at one time. */
  function Drawn(entries: Entries, now: real): Screen {
    map u | u in entries :: Shown(entries[u].content, now)
  }

  ghost function DrawnAmong(entries: Entries, done: set<Uid>, now: real): Screen {
    map u | u in done && u in entries :: Shown(entries[u].content, now)
  }

  ghost function Overlaid(screen: Screen, entries: Entries, done: set<Uid>, now: real): Screen {
    screen + DrawnAmong(entries, done, now)
  }

  lemma OverlayEnds(entries: Entries, screen: Screen, now: real)
    ensures Overlaid(screen, entries, {}, now) == screen
    ensures Overlaid(screen, entries, entries.Keys, now) == screen + Drawn(entries, now)
  {
    assert DrawnAmong(entries, entries.Keys, now) == Drawn(entries, now);
  }

  lemma PutStep(wire: seq<Message>, screen: Screen, entries: Entries, done: set<Uid>, uid: Uid, now: real)
    requires uid in entries && ReceiveAll(wire) == Overlaid(screen, entries, done, now)
    ensures ReceiveAll(wire + [Show(uid, entries[uid].content, now)]) == Overlaid(screen, entries, done + {uid}, now)
  {}

  function Unseen(seen: Option<set<Uid>>, uids: set<Uid>): set<Uid> {
    if seen.None? then {} else uids - seen.value
  }

  lemma UnseenStep(seen: Option<set<Uid>>, uids: set<Uid>, uid: Uid)
    ensures Unseen(seen, uids + {uid}) == if seen.Some? && uid !in seen.value then Unseen(seen, uids) + {uid} else Unseen(seen, uids)
    ensures Unseen(seen, {}) == {}
  {}

  class CommunityPublisher {
    var tracks: Entries
    var seen: Option<set<Uid>>
    var wire: seq<Message>
    /** Entries announced by the last poll. */
    var events: set<Uid>

    constructor ()
      ensures Now() == INITIAL && wire == [] && events == {} && Mirrors()
    {
      tracks, seen, wire, events := map[], None, [], {};
    }

    ghost function Now(): State
      reads this
    {
      State(tracks, seen)
    }

    ghost predicate Mirrors()
      reads this
    {
      ReceiveAll(wire).Keys == tracks.Keys
    }

    method PutAll(current: Entries, now: real)
      modifies this`wire, this`events
      ensures ReceiveAll(wire) == old(ReceiveAll(wire)) + Drawn(current, now)
      ensures old(wire) <= wire
      ensures events == Unseen(seen, current.Keys)
    {
      hide *;
      ghost var screen := ReceiveAll(wire);
      events := {};
      var rest := current.Keys;
      ghost var done: set<Uid> := {};
      OverlayEnds(current, screen, now);
      UnseenStep(seen, {}, "");
      while rest != {}
        invariant done !! rest && done + rest == current.Keys
        invariant ReceiveAll(wire) == Overlaid(screen, current, done, now)
        invariant old(wire) <= wire
        invariant events == Unseen(seen, done)
        decreases |rest|
      {
        var uid :| uid in rest;
        MoveElement(done, rest, current.Keys, uid);
        PutStep(wire, screen, current, done, uid, now);
        UnseenStep(seen, done, uid);
        rest, done := rest - {uid}, done + {uid};
        wire := wire + [Show(uid, current[uid].content, now)];
        if seen.Some? && uid !in seen.value {
          events := events + {uid};
        }
      }
      assert done == current.Keys;
    }

    method Retract(gone: set<Uid>)
      modifies this`wire
      ensures ReceiveAll(wire) == old(ReceiveAll(wire)) - gone
      ensures old(wire) <= wire
    {
      hide ReceiveAll;
      ghost var screen := ReceiveAll(wire);
      var rest := gone;
      while rest != {}
        invariant rest <= gone && ReceiveAll(wire) == screen - (gone - rest)
        invariant old(wire) <= wire
        decreases |rest|
      {
        var uid :| uid in rest;
        assert gone - (rest - {uid}) == (gone - rest) + {uid};
        rest := rest - {uid};
        ReceiveOneMore(wire, Tombstone(uid));
        wire := wire + [Tombstone(uid)];
      }
      assert gone - {} == gone;
    }

    /** `publish_community`. Afterwards the subscriber draws exactly the current entries. */
    method Publish(poll: Poll, now: real)
      requires Mirrors()
      modifies this
      ensures Mirrors() && Now() == Step(old(Now()), poll)
      ensures ReceiveAll(wire) == Drawn(tracks, now)
      ensures forall u :: u in events <==> Announces(old(Now()), poll, u)
      ensures forall u :: u in tracks <==>
                Carried(old(tracks), Report, poll.reports, u) || Carried(old(tracks), Incident, poll.incidents, u)
      ensures forall u | Carried(old(tracks), Incident, poll.incidents, u) ::
                tracks[u] == CarriedEntry(old(tracks), Incident, poll.incidents, u)
      ensures forall u | Carried(old(tracks), Report, poll.reports, u) && !Carried(old(tracks), Incident, poll.incidents, u) ::
                tracks[u] == CarriedEntry(old(tracks), Report, poll.reports, u)
      ensures ReceiveAll(wire).Keys == tracks.Keys && forall u | u in tracks :: ReceiveAll(wire)[u] == Shown(tracks[u].content, now)
      ensures forall u :: u in events <==> u in tracks && old(seen).Some? && u !in old(seen).value
      ensures seen == if poll.reports.Some? && poll.incidents.Some? then Some(tracks.Keys) else old(seen)
    {
      CurrentExactly(tracks, poll);
      hide Part, ReceiveAll, Carried, CarriedEntry;
      var current := Current(tracks, poll);
      PutAll(current, now);
      Retract(tracks.Keys - current.Keys);
      tracks := current;
      if poll.Complete() {
        seen := Some(current.Keys);
      }
    }
  }

  // ----- announcing once -----

  function Run(s: State, polls: seq<Poll>): State {
    if polls == [] then s else Step(Run(s, polls[..|polls| - 1]), polls[|polls| - 1])
  }

  /** After a complete poll, whatever came before, exactly the entries that it did not have are
      announced; and none by the first poll. */
  lemma AnnouncedWhenNew(polls: seq<Poll>, k: nat, uid: Uid)
    requires k < |polls| && (k > 0 ==> polls[k - 1].Complete())
    ensures var before, after := Run(INITIAL, polls[..k]), Run(INITIAL, polls[..k + 1]);
            Announces(before, polls[k], uid) <==> k > 0 && uid in after.tracks && uid !in before.tracks
  {}

  /** With failed fetches this is no longer so: an entry that was announced by one poll, and
      is still there at the next, is announced again exactly when the first poll was not
      complete. */
  lemma AnnouncedAgainExactly(s: State, first: Poll, second: Poll, uid: Uid)
    requires Announces(s, first, uid) && uid in Step(Step(s, first), second).tracks
    ensures Announces(Step(s, first), second, uid) <==> !first.Complete()
  {}

  /** Such a run: the incident feed fails twice while a report appears. */
  lemma AnnouncedTwice(entry: Entry)
    ensures var quiet := Poll(Some(map[]), Some(map[]));
            var down := Poll(Some(map["a" := entry]), None);
            var s := Run(INITIAL, [quiet]);
            Announces(s, down, "a") && Announces(Step(s, down), down, "a")
  {}
}
