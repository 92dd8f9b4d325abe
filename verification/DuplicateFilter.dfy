/** The duplicate filter of the ASTERIX relay: a cache with a lifetime and a size limit
    that answers as if it remembered the whole history of sightings. */
module DuplicateFilter {
  import opened AsterixFrames

  /** The digest of a topic and a frame, free of collisions. */
  datatype Fingerprint = Fingerprint(topic: string, frame: seq<Byte>)

  datatype Sighting = Sighting(fingerprint: Fingerprint, time: real)

  // ----- the history and what it says -----

  predicate Ordered(history: seq<Sighting>) {
    forall i, j | 0 <= i < j < |history| :: history[i].time <= history[j].time
  }

  function Without(s: seq<Sighting>, f: Fingerprint): seq<Sighting> {
    if s == [] then []
    else
      var n := |s| - 1;
      Without(s[..n], f) + if s[n].fingerprint == f then [] else [s[n]]
  }

  /** The last sighting of each fingerprint, in the order of those sightings. */
  function LastSightings(history: seq<Sighting>): seq<Sighting> {
    if history == [] then []
    else
      var last := history[|history| - 1];
      Without(LastSightings(history[..|history| - 1]), last.fingerprint) + [last]
  }

  /** The longest end of a sequence with at most `limit` sightings, none before `cutoff`. */
  function Window(s: seq<Sighting>, cutoff: real, limit: nat): seq<Sighting> {
    if s == [] || limit == 0 || s[|s| - 1].time < cutoff then []
    else Window(s[..|s| - 1], cutoff, limit - 1) + [s[|s| - 1]]
  }

  predicate Holds(s: seq<Sighting>, f: Fingerprint) {
    exists i | 0 <= i < |s| :: s[i].fingerprint == f
  }

  function Fingerprints(s: seq<Sighting>): set<Fingerprint> {
    if s == [] then {} else Fingerprints(s[..|s| - 1]) + {s[|s| - 1].fingerprint}
  }

  /** The i-th sighting is its fingerprint's last one, it is not before `cutoff`, and fewer
      than `limit` other fingerprints were seen since. */
  ghost predicate StillRecent(history: seq<Sighting>, f: Fingerprint, cutoff: real, limit: nat, i: nat) {
    && i < |history| && history[i].fingerprint == f && !Holds(history[i + 1..], f)
    && history[i].time >= cutoff && |Fingerprints(history[i + 1..])| < limit
  }

  ghost predicate SeenRecently(history: seq<Sighting>, f: Fingerprint, cutoff: real, limit: nat) {
    exists i: nat :: StillRecent(history, f, cutoff, limit, i)
  }

  // ----- lemmas about these -----

  lemma {:induction false} WithoutAppend(a: seq<Sighting>, b: seq<Sighting>, f: Fingerprint)
    ensures Without(a + b, f) == Without(a, f) + Without(b, f)
  {
    if b == [] {
      assert a + b == a;
    } else {
      var n := |b| - 1;
      WithoutAppend(a, b[..n], f);
      assert (a + b)[..|a + b| - 1] == a + b[..n];
    }
  }

  lemma {:induction false} WithoutAbsent(s: seq<Sighting>, f: Fingerprint)
    requires !Holds(s, f)
    ensures Without(s, f) == s
  {
    if s != [] {
      var n := |s| - 1;
      assert !Holds(s[..n], f) by {
        assert forall i | 0 <= i < n :: s[..n][i] == s[i];
      }
      WithoutAbsent(s[..n], f);
      assert s == s[..n] + [s[n]];
    }
  }

  predicate DistinctPrints(s: seq<Sighting>) {
    forall i, j | 0 <= i < j < |s| :: s[i].fingerprint != s[j].fingerprint
  }

  /** Removing a fingerprint keeps the order and the other fingerprints. */
  lemma {:induction false} WithoutFacts(s: seq<Sighting>, f: Fingerprint)
    requires DistinctPrints(s)
    ensures DistinctPrints(Without(s, f)) && !Holds(Without(s, f), f)
    ensures Fingerprints(Without(s, f)) == Fingerprints(s) - {f}
    ensures forall g :: Holds(Without(s, f), g) ==> Holds(s, g)
  {
    if s != [] {
      var n := |s| - 1;
      var shorter := Without(s[..n], f);
      WithoutFacts(s[..n], f);
      HoldsIsMember(s[..n], s[n].fingerprint);
      if s[n].fingerprint != f {
        assert !Holds(shorter, s[n].fingerprint);
        assert (shorter + [s[n]])[..|shorter|] == shorter;
        HoldsLast(shorter, s[n]);
      } else {
        assert shorter + [] == shorter;
      }
      assert s[..n] + [s[n]] == s;
      HoldsLast(s[..n], s[n]);
    }
  }

  lemma HoldsLast(s: seq<Sighting>, last: Sighting)
    ensures forall g :: Holds(s + [last], g) <==> Holds(s, g) || last.fingerprint == g
  {
    var all := s + [last];
    forall g
      ensures Holds(all, g) <==> Holds(s, g) || last.fingerprint == g
    {
      if i :| 0 <= i < |s| && s[i].fingerprint == g {
        assert all[i].fingerprint == g;
      }
      assert all[|s|] == last;
    }
  }

  lemma {:induction false} HoldsIsMember(s: seq<Sighting>, f: Fingerprint)
    ensures Holds(s, f) <==> f in Fingerprints(s)
  {
    if s != [] {
      var n := |s| - 1;
      HoldsIsMember(s[..n], f);
      HoldsLast(s[..n], s[n]);
      assert s == s[..n] + [s[n]];
    }
  }

  lemma {:induction false} DistinctCount(s: seq<Sighting>)
    requires DistinctPrints(s)
    ensures |Fingerprints(s)| == |s|
  {
    if s != [] {
      var n := |s| - 1;
      DistinctCount(s[..n]);
      HoldsIsMember(s[..n], s[n].fingerprint);
    }
  }

  lemma {:induction false} LastSightingsDistinct(history: seq<Sighting>)
    ensures DistinctPrints(LastSightings(history))
  {
    if history != [] {
      var n := |history| - 1;
      LastSightingsDistinct(history[..n]);
      WithoutFacts(LastSightings(history[..n]), history[n].fingerprint);
    }
  }

  /** Around the last sighting of a fingerprint, the last sightings of the history split into
      those of what came before and those of what came after. */
  lemma {:induction false} SplitAtSighting(history: seq<Sighting>, i: nat) returns (before: seq<Sighting>, after: seq<Sighting>)
    requires i < |history| && !Holds(history[i + 1..], history[i].fingerprint)
    ensures LastSightings(history) == before + [history[i]] + after
    ensures Fingerprints(after) == Fingerprints(history[i + 1..])
    decreases |history|
  {
    hide Without, LastSightings, Fingerprints, DistinctPrints;
    var n := |history| - 1;
    LastSightingsStep(history[..n], history[n]);
    assert history == history[..n] + [history[n]];
    if i == n {
      assert history[i + 1..] == [];
      before, after := Without(LastSightings(history[..n]), history[n].fingerprint), [];
    } else {
      var shorter := history[..n];
      var last := history[n];
      assert history[i + 1..] == shorter[i + 1..] + [last];
      HoldsLast(shorter[i + 1..], last);
      var b, a := SplitAtSighting(shorter, i);
      LastSightingsDistinct(shorter);
      SplitStep(b, shorter[i], a, last);
      FingerprintsStep(shorter[i + 1..], last);
      before, after := Without(b, last.fingerprint), Without(a, last.fingerprint) + [last];
    }
  }

  lemma LastSightingsStep(history: seq<Sighting>, last: Sighting)
    ensures LastSightings(history + [last]) == Without(LastSightings(history), last.fingerprint) + [last]
  {}

  lemma FingerprintsStep(s: seq<Sighting>, last: Sighting)
    ensures Fingerprints(s + [last]) == Fingerprints(s) + {last.fingerprint}
  {}

  /** How a split changes when one more sighting, of another fingerprint, follows. */
  lemma SplitStep(before: seq<Sighting>, middle: Sighting, after: seq<Sighting>, last: Sighting)
    requires DistinctPrints(before + [middle] + after) && middle.fingerprint != last.fingerprint
    ensures var f := last.fingerprint;
            && Without(before + [middle] + after, f) + [last] == Without(before, f) + [middle] + (Without(after, f) + [last])
            && Fingerprints(Without(after, f) + [last]) == Fingerprints(after) + {f}
  {
    var f := last.fingerprint;
    SplitIsDistinct(before, middle, after, before + [middle] + after);
    WithoutMiddle(before, middle, after, f);
    WithoutFacts(after, f);
    FingerprintsStep(Without(after, f), last);
    hide Without, Fingerprints, DistinctPrints, Holds;
    assert Without(before, f) + [middle] + Without(after, f) + [last] == Without(before, f) + [middle] + (Without(after, f) + [last]);
    assert f !in Fingerprints(after) - {f};
    assert Fingerprints(after) - {f} + {f} == Fingerprints(after) + {f};
  }

  lemma WithoutMiddle(before: seq<Sighting>, middle: Sighting, after: seq<Sighting>, f: Fingerprint)
    requires middle.fingerprint != f
    ensures Without(before + [middle] + after, f) == Without(before, f) + [middle] + Without(after, f)
  {
    WithoutAppend(before + [middle], after, f);
    assert (before + [middle])[..|before|] == before;
  }

  lemma SplitIsDistinct(before: seq<Sighting>, middle: Sighting, after: seq<Sighting>, all: seq<Sighting>)
    requires DistinctPrints(all) && all == before + [middle] + after
    ensures DistinctPrints(after) && !Holds(before, middle.fingerprint) && !Holds(after, middle.fingerprint)
  {
    assert all[|before|] == middle;
    assert forall i | 0 <= i < |before| :: before[i] == all[i];
    assert forall i | 0 <= i < |after| :: after[i] == all[|before| + 1 + i];
  }

  /** A fingerprint that the history holds has a last sighting. */
  lemma {:induction false} LastIndex(history: seq<Sighting>, f: Fingerprint) returns (i: nat)
    requires Holds(history, f)
    ensures i < |history| && history[i].fingerprint == f && !Holds(history[i + 1..], f)
  {
    var n := |history| - 1;
    if history[n].fingerprint == f {
      i := n;
    } else {
      HoldsLast(history[..n], history[n]);
      assert history == history[..n] + [history[n]];
      i := LastIndex(history[..n], f);
      HoldsLast(history[..n][i + 1..], history[n]);
      assert history[i + 1..] == history[..n][i + 1..] + [history[n]];
    }
  }

  // ----- the window of the last sightings -----

  lemma {:induction false} WindowIsEnd(s: seq<Sighting>, cutoff: real, limit: nat)
    ensures var w := Window(s, cutoff, limit);
            && |w| <= |s| && |w| <= limit && s[|s| - |w|..] == w
            && (|w| < |s| && |w| < limit ==> s[|s| - |w| - 1].time < cutoff)
            && (forall k | |s| - |w| <= k < |s| :: s[k].time >= cutoff)
  {
    if !(s == [] || limit == 0 || s[|s| - 1].time < cutoff) {
      WindowIsEnd(s[..|s| - 1], cutoff, limit - 1);
    }
  }

  /** An end of the sequence that is within both limits and cannot be longer is the window. */
  lemma WindowIsUnique(s: seq<Sighting>, cutoff: real, limit: nat, w: seq<Sighting>)
    requires |w| <= |s| && |w| <= limit && s[|s| - |w|..] == w && forall k | |s| - |w| <= k < |s| :: s[k].time >= cutoff
    requires |w| < |s| && |w| < limit ==> s[|s| - |w| - 1].time < cutoff
    ensures w == Window(s, cutoff, limit)
  {
    WindowIsEnd(s, cutoff, limit);
    assert |w| == |Window(s, cutoff, limit)|;
  }

  lemma {:induction false} WithoutOnly(s: seq<Sighting>, f: Fingerprint)
    ensures forall x | x in Without(s, f) :: x in s
  {
    if s != [] {
      WithoutOnly(s[..|s| - 1], f);
    }
  }

  lemma {:induction false} LastSightingsOnly(history: seq<Sighting>)
    ensures forall x | x in LastSightings(history) :: x in history
  {
    if history != [] {
      var n := |history| - 1;
      LastSightingsOnly(history[..n]);
      WithoutOnly(LastSightings(history[..n]), history[n].fingerprint);
    }
  }

  lemma {:induction false} WithoutKeepsOrder(s: seq<Sighting>, f: Fingerprint)
    requires Ordered(s)
    ensures Ordered(Without(s, f))
  {
    if s != [] {
      var n := |s| - 1;
      var shorter := Without(s[..n], f);
      WithoutKeepsOrder(s[..n], f);
      WithoutOnly(s[..n], f);
      assert forall x | x in s[..n] :: x.time <= s[n].time;
      assert forall i | 0 <= i < |shorter| :: shorter[i] in s[..n];
    }
  }

  /** Last sightings are in the order of their times. */
  lemma {:induction false} LastSightingsOrdered(history: seq<Sighting>)
    requires Ordered(history)
    ensures Ordered(LastSightings(history))
  {
    if history != [] {
      var n := |history| - 1;
      LastSightingsOrdered(history[..n]);
      LastSightingsOnly(history[..n]);
      WithoutKeepsOrder(LastSightings(history[..n]), history[n].fingerprint);
      WithoutOnly(LastSightings(history[..n]), history[n].fingerprint);
      assert forall s | s in history[..n] :: s.time <= history[n].time;
    }
  }

  /** What the filter holds after a history, when it was last asked at `now`. */
  function Remembered(history: seq<Sighting>, cutoff: real, limit: nat): seq<Sighting> {
    Window(LastSightings(history), cutoff, limit)
  }

  /** The filter's answer in terms of the history alone: the fingerprint was seen within its
      lifetime, and fewer than `limit` other ones since. */
  lemma RememberedExactly(history: seq<Sighting>, f: Fingerprint, cutoff: real, limit: nat)
    requires Ordered(history)
    ensures Holds(Remembered(history, cutoff, limit), f) <==> SeenRecently(history, f, cutoff, limit)
  {
    var w := Remembered(history, cutoff, limit);
    if Holds(w, f) {
      var k :| 0 <= k < |w| && w[k].fingerprint == f;
      var i := HeldIsRecent(history, f, cutoff, limit, k);
    }
    if i: nat :| StillRecent(history, f, cutoff, limit, i) {
      RecentIsHeld(history, f, cutoff, limit, i);
    }
  }

  lemma SplitFacts(history: seq<Sighting>, i: nat) returns (before: seq<Sighting>, after: seq<Sighting>)
    requires i < |history| && !Holds(history[i + 1..], history[i].fingerprint)
    ensures LastSightings(history) == before + [history[i]] + after
    ensures |after| == |Fingerprints(history[i + 1..])|
    ensures !Holds(before, history[i].fingerprint) && !Holds(after, history[i].fingerprint)
  {
    before, after := SplitAtSighting(history, i);
    LastSightingsDistinct(history);
    SplitIsDistinct(before, history[i], after, LastSightings(history));
    DistinctCount(after);
  }

  lemma OnePlace(s: seq<Sighting>, a: nat, b: nat)
    requires DistinctPrints(s) && a < |s| && b < |s| && s[a].fingerprint == s[b].fingerprint
    ensures a == b
  {}

  lemma RecentIsHeld(history: seq<Sighting>, f: Fingerprint, cutoff: real, limit: nat, i: nat)
    requires Ordered(history) && StillRecent(history, f, cutoff, limit, i)
    ensures Holds(Remembered(history, cutoff, limit), f)
  {
    var before, after := SplitFacts(history, i);
    var all := LastSightings(history);
    LastSightingsOrdered(history);
    WindowIsEnd(all, cutoff, limit);
    var w := Remembered(history, cutoff, limit);
    assert all[|before|] == history[i];
    assert |after| < |w|;
    assert w[|w| - |after| - 1] == history[i];
  }

  lemma HeldIsRecent(history: seq<Sighting>, f: Fingerprint, cutoff: real, limit: nat, k: nat) returns (i: nat)
    requires k < |Remembered(history, cutoff, limit)| && Remembered(history, cutoff, limit)[k].fingerprint == f
    ensures StillRecent(history, f, cutoff, limit, i)
  {
    hide LastSightings, Window, Fingerprints, DistinctPrints;
    var all := LastSightings(history);
    var w := Remembered(history, cutoff, limit);
    WindowIsEnd(all, cutoff, limit);
    var place := |all| - |w| + k;
    assert all[place] == w[k] && w[k] in all;
    LastSightingsOnly(history);
    assert Holds(history, f) by {
      var j :| 0 <= j < |history| && history[j] == w[k];
    }
    i := LastIndex(history, f);
    var before, after := SplitFacts(history, i);
    assert all[|before|] == history[i];
    LastSightingsDistinct(history);
    OnePlace(all, place, |before|);
  }

  // ----- one step of the window -----

  /** Dropping what expired from the front leaves the window of the later cutoff. */
  lemma ExpireFront(s: seq<Sighting>, w: seq<Sighting>, before: real, cutoff: real, limit: nat, k: nat)
    requires Ordered(s) && before <= cutoff && k <= |w| && w == Window(s, before, limit)
    requires (k > 0 ==> w[k - 1].time < cutoff) && (k < |w| ==> w[k].time >= cutoff)
    ensures w[k..] == Window(s, cutoff, limit)
  {
    WindowIsEnd(s, before, limit);
    hide Window;
    var n := |s| - |w|;
    assert s[n..] == w;
    assert w[k..] == s[n + k..];
    assert k < |w| ==> s[n + k] == w[k];
    assert k > 0 ==> s[n + k - 1] == w[k - 1];
    WindowIsUnique(s, cutoff, limit, w[k..]);
  }

  /** The window after one more sighting: a remembered fingerprint moves to the end, a new
      one is added and pushes out the oldest when there is no room. */
  lemma WindowAfter(history: seq<Sighting>, x: Sighting, cutoff: real, limit: nat)
    requires Ordered(history) && cutoff <= x.time
    ensures var w := Remembered(history, cutoff, limit);
            Remembered(history + [x], cutoff, limit) ==
            if Holds(w, x.fingerprint) then Without(w, x.fingerprint) + [x]
            else if |w| < limit then w + [x]
            else (w + [x])[1..]
  {
    var f, s := x.fingerprint, LastSightings(history);
    var w := Remembered(history, cutoff, limit);
    hide LastSightings, Window, Without, DistinctPrints, Ordered, Holds, AllSince;
    LastSightingsDistinct(history);
    WindowIsEnd(s, cutoff, limit);
    WindowEnd(history, s, w, cutoff, limit);
    var front := s[..|s| - |w|];
    assert s == front + w;
    LastSightingsStep(history, x);
    WithoutAppend(front, w, f);
    if Holds(w, f) {
      DistinctParts(front, w, f);
      WithoutAbsent(front, f);
      WithoutOne(w, f);
      AfterHit(front, w, f, x, cutoff, limit);
    } else {
      WithoutAbsent(w, f);
      WithoutOnly(front, f);
      AfterMiss(Without(front, f), front, w, x, cutoff, limit);
    }
  }

  lemma DistinctParts(front: seq<Sighting>, w: seq<Sighting>, f: Fingerprint)
    requires DistinctPrints(front + w) && Holds(w, f)
    ensures !Holds(front, f) && DistinctPrints(w)
  {
    var s := front + w;
    assert forall i | 0 <= i < |w| :: w[i] == s[|front| + i];
    assert forall i | 0 <= i < |front| :: front[i] == s[i];
  }

  /** Where the window of an ordered sequence ends, and what lies before it. */
  lemma WindowEnd(history: seq<Sighting>, s: seq<Sighting>, w: seq<Sighting>, cutoff: real, limit: nat)
    requires Ordered(history) && s == LastSightings(history) && w == Window(s, cutoff, limit)
    ensures |w| <= |s| && |w| <= limit && AllSince(w, cutoff)
    ensures |w| < limit ==> forall y | y in s[..|s| - |w|] :: y.time < cutoff
  {
    WindowIsEnd(s, cutoff, limit);
    LastSightingsOrdered(history);
    hide LastSightings, Window;
    var n := |s| - |w|;
    SinceEnd(s, n, cutoff);
    if |w| < limit {
      BeforeFront(s, n, cutoff);
    }
  }

  lemma SinceEnd(s: seq<Sighting>, n: nat, cutoff: real)
    requires n <= |s| && forall k | n <= k < |s| :: s[k].time >= cutoff
    ensures AllSince(s[n..], cutoff)
  {}

  lemma BeforeFront(s: seq<Sighting>, n: nat, cutoff: real)
    requires n <= |s| && Ordered(s) && (n > 0 ==> s[n - 1].time < cutoff)
    ensures forall y | y in s[..n] :: y.time < cutoff
  {}

  lemma {:induction false} WithoutOne(s: seq<Sighting>, f: Fingerprint)
    requires DistinctPrints(s) && Holds(s, f)
    ensures |Without(s, f)| == |s| - 1
  {
    var n := |s| - 1;
    HoldsLast(s[..n], s[n]);
    assert s == s[..n] + [s[n]];
    if s[n].fingerprint == f {
      assert !Holds(s[..n], f) by {
        assert forall i | 0 <= i < n :: s[..n][i] == s[i];
      }
      WithoutAbsent(s[..n], f);
    } else {
      WithoutOne(s[..n], f);
    }
  }

  predicate AllSince(s: seq<Sighting>, cutoff: real) {
    forall x | x in s :: x.time >= cutoff
  }

  lemma AfterHit(front: seq<Sighting>, w: seq<Sighting>, f: Fingerprint, x: Sighting, cutoff: real, limit: nat)
    requires |w| <= limit && AllSince(w, cutoff) && cutoff <= x.time
    requires front != [] && |w| < limit ==> front[|front| - 1].time < cutoff
    requires |Without(w, f)| == |w| - 1
    ensures Window(front + Without(w, f) + [x], cutoff, limit) == Without(w, f) + [x]
  {
    WithoutOnly(w, f);
    var kept := Without(w, f);
    var all := front + kept + [x];
    assert forall k | |front| <= k < |all| - 1 :: all[k] == kept[k - |front|] && all[k] in w;
    assert all[|front|..] == kept + [x];
    WindowIsUnique(all, cutoff, limit, kept + [x]);
  }

  lemma AfterMiss(rest: seq<Sighting>, front: seq<Sighting>, w: seq<Sighting>, x: Sighting, cutoff: real, limit: nat)
    requires |w| <= limit && AllSince(w, cutoff) && cutoff <= x.time
    requires |w| < limit ==> forall y | y in front :: y.time < cutoff
    requires forall y | y in rest :: y in front
    ensures Window(rest + w + [x], cutoff, limit) == if |w| < limit then w + [x] else (w + [x])[1..]
  {
    var all := rest + w + [x];
    var end := if |w| < limit then w + [x] else (w + [x])[1..];
    assert forall k | |rest| <= k < |all| - 1 :: all[k] == w[k - |rest|] && all[k] in w;
    assert all[|all| - |end|..] == end;
    assert |w| < limit && rest != [] ==> rest[|rest| - 1] in rest;
    WindowIsUnique(all, cutoff, limit, end);
  }

  // ----- the filter -----

  class RecentFrames {
    const lifetime: real
    const limit: nat
    /** Fingerprints with the time of their last sighting, oldest first. */
    var items: seq<Sighting>
    ghost var history: seq<Sighting>

    constructor (lifetime: real, limit: nat)
      requires lifetime >= 0.0
      ensures Valid() && history == [] && this.lifetime == lifetime && this.limit == limit
    {
      this.lifetime, this.limit := lifetime, limit;
      items, history := [], [];
    }

    ghost predicate Valid()
      reads this
    {
      && lifetime >= 0.0 && Ordered(history)
      && items == if history == [] then [] else Remembered(history, history[|history| - 1].time - lifetime, limit)
    }

    /** `seen`: the answer is whether the fingerprint is remembered, and the filter then
        holds exactly the most recent fingerprints of the whole history. */
    method Seen(topic: string, frame: seq<Byte>, now: real) returns (known: bool)
      requires Valid() && (history != [] ==> history[|history| - 1].time <= now)
      modifies this
      ensures Valid() && history == old(history) + [Sighting(Fingerprint(topic, frame), now)]
      ensures known <==> Holds(Remembered(old(history), now - lifetime, limit), Fingerprint(topic, frame))
      ensures known <==> SeenRecently(old(history), Fingerprint(topic, frame), now - lifetime, limit)
      ensures |items| <= limit
    {
      hide Remembered, Without, SeenRecently, Holds, Ordered;
      var f := Fingerprint(topic, frame);
      var x := Sighting(f, now);
      var cutoff := now - lifetime;
      ghost var were, k := items, 0;
      while items != []
        invariant k <= |were| && items == were[k..]
        invariant k > 0 ==> were[k - 1].time < cutoff
        invariant history == old(history)
        decreases |items|
      {
        if items[0].time >= cutoff {
          break;
        }
        items := items[1..];
        k := k + 1;
      }
      Expired(history, lifetime, cutoff, limit, k, were);
      OrderedStep(history, x);
      RememberedExactly(history, f, cutoff, limit);
      WindowAfter(history, x, cutoff, limit);
      ghost var remembered := items;
      RememberedFits(history, cutoff, limit);
      RememberedFits(history + [x], cutoff, limit);
      history := history + [x];
      if Holds(items, f) {
        items := Without(items, f) + [x];
        return true;
      }
      items := items + [x];
      while |items| > limit
        invariant items == remembered + [x] || items == (remembered + [x])[1..]
        invariant |items| >= limit || items == remembered + [x]
        invariant history == old(history) + [x]
        decreases |items|
      {
        items := items[1..];
      }
      return false;
    }
  }

  lemma OrderedStep(history: seq<Sighting>, x: Sighting)
    requires Ordered(history) && (history != [] ==> history[|history| - 1].time <= x.time)
    ensures Ordered(history + [x])
  {}

  lemma RememberedFits(history: seq<Sighting>, cutoff: real, limit: nat)
    ensures |Remembered(history, cutoff, limit)| <= limit
  {
    WindowIsEnd(LastSightings(history), cutoff, limit);
  }

  lemma Expired(history: seq<Sighting>, lifetime: real, cutoff: real, limit: nat, k: nat, were: seq<Sighting>)
    requires Ordered(history) && lifetime >= 0.0 && k <= |were|
    requires were == if history == [] then [] else Remembered(history, history[|history| - 1].time - lifetime, limit)
    requires history != [] ==> history[|history| - 1].time - lifetime <= cutoff
    requires (k > 0 ==> were[k - 1].time < cutoff) && (k < |were| ==> were[k].time >= cutoff)
    ensures were[k..] == Remembered(history, cutoff, limit)
  {
    if history != [] {
      hide LastSightings, Window;
      LastSightingsOrdered(history);
      ExpireFront(LastSightings(history), were, history[|history| - 1].time - lifetime, cutoff, limit, k);
    }
  }
}
