/** The picture that a remote subscriber draws from puts and tombstones. */
module Picture {

  type Uid = string

  datatype Message = Show(uid: Uid, content: string, time: real) | Tombstone(uid: Uid)

  datatype Shown = Shown(content: string, since: real)

  type Screen = map<Uid, Shown>

  function Receive(screen: Screen, m: Message): Screen {
    match m
    case Show(uid, content, time) => screen[uid := Shown(content, time)]
    case Tombstone(uid) => screen - {uid}
  }

  function ReceiveAll(wire: seq<Message>): Screen {
    if wire == [] then map[] else Receive(ReceiveAll(wire[..|wire| - 1]), wire[|wire| - 1])
  }

  lemma ReceiveOneMore(wire: seq<Message>, m: Message)
    ensures ReceiveAll(wire + [m]) == Receive(ReceiveAll(wire), m)
  {}

  predicate ShowsAs(screen: Screen, uid: Uid, x: Shown) {
    uid in screen && screen[uid] == x
  }

  lemma OtherEntriesStay(wire: seq<Message>, m: Message)
    ensures forall u, x | u != m.uid :: ShowsAs(ReceiveAll(wire + [m]), u, x) <==> ShowsAs(ReceiveAll(wire), u, x)
    ensures m.Show? ==> ShowsAs(ReceiveAll(wire + [m]), m.uid, Shown(m.content, m.time))
  {
    ReceiveOneMore(wire, m);
  }

  /** An entry is drawn until it goes stale. */
  predicate Visible(screen: Screen, uid: Uid, now: real, stale: real) {
    uid in screen && now < screen[uid].since + stale
  }

  function Tombstones(wire: seq<Message>, uid: Uid): nat {
    if wire == [] then 0
    else Tombstones(wire[..|wire| - 1], uid) + if wire[|wire| - 1] == Tombstone(uid) then 1 else 0
  }

  lemma TombstonesOneMore(wire: seq<Message>, m: Message, uid: Uid)
    ensures Tombstones(wire + [m], uid) == Tombstones(wire, uid) + if m == Tombstone(uid) then 1 else 0
  {}
}
