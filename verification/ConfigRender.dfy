/** The configuration text that a push carries: a template with the fields substituted, and
    why its envelope is never too large for a relay. */
module ConfigRender {
  import opened Results
  import opened Text
  import opened Identity
  import opened Json
  import opened PartnerName

  /** Certificate paths of a TLS profile. */
  datatype TlsProfile = TlsProfile(
    plaintext: bool,
    listenCertificate: string,
    listenKey: string,
    connectCertificate: string,
    connectKey: string,
    rootCa: string)

  datatype ConfigFields = ConfigFields(
    mtlsPort: nat,
    localTcpPort: nat,
    enableQuic: bool,
    quicPort: nat,
    endpoint: string,
    endpoints: seq<string>,
    partner: string,
    inbound: string,
    namespacePrefix: string,
    publishPrefix: string,
    verifyName: bool,
    pluginsLoading: bool,
    profile: TlsProfile)

  const MAX_FABRIC_ENDPOINTS := 16

  // ----- what the field validators accept -----

  /** A text of these characters; the pattern's `$` also lets one line feed pass at the end. */
  predicate Matches(s: string, allowed: char -> bool) {
    && s != ""
    && (forall i | 0 <= i < |s| - 1 :: allowed(s[i]))
    && (allowed(s[|s| - 1]) || (|s| > 1 && s[|s| - 1] == '\n'))
  }

  predicate EndpointChar(c: char) {
    PathChar(c) || c == ':'
  }

  predicate ValidFields(f: ConfigFields) {
    && Matches(f.partner, PathChar) && Matches(f.inbound, PathChar) && Matches(f.namespacePrefix, PathChar)
    && (forall c | c in f.publishPrefix :: PathChar(c))
    && (f.endpoint == "" || Matches(f.endpoint, EndpointChar))
    && |f.endpoints| <= MAX_FABRIC_ENDPOINTS && forall e | e in f.endpoints :: Matches(e, EndpointChar)
  }

  predicate ValidProfile(p: TlsProfile) {
    && (forall c | c in p.listenCertificate :: PathChar(c)) && (forall c | c in p.listenKey :: PathChar(c))
    && (forall c | c in p.connectCertificate :: PathChar(c)) && (forall c | c in p.connectKey :: PathChar(c))
    && (forall c | c in p.rootCa :: PathChar(c))
  }

  // ----- rendering -----

  function ListenEndpoints(f: ConfigFields): seq<string> {
    [(if f.profile.plaintext then "tcp" else "tls") + "/0.0.0.0:" + Decimal(f.mtlsPort), "tcp/127.0.0.1:" + Decimal(f.localTcpPort)]
    + if f.enableQuic && !f.profile.plaintext then ["quic/0.0.0.0:" + Decimal(f.quicPort)] else []
  }

  function FabricEndpoints(f: ConfigFields): seq<string> {
    if f.endpoints != [] then f.endpoints else if f.endpoint != "" then [f.endpoint] else []
  }

  function EndpointList(endpoints: seq<string>): string {
    "[" + Strings(endpoints, " ") + "]"
  }

  function Bool(b: bool): string {
    if b then "true" else "false"
  }

  /** The keys and their values, in the order of substitution. */
  function Substitutions(f: ConfigFields): seq<(string, string)> {
    [("ZENOH_LISTEN_ENDPOINTS", EndpointList(ListenEndpoints(f))),
     ("ZENOH_LOCAL_TCP_PORT", Decimal(f.localTcpPort)),
     ("ZENOH_CONNECT_ENDPOINTS", EndpointList(FabricEndpoints(f))),
     ("PARTNER_NAMESPACE", f.partner),
     ("INBOUND_NAMESPACE", f.inbound),
     ("NAMESPACE_PREFIX", f.namespacePrefix),
     ("NAMESPACE_ROOT", Split(f.namespacePrefix)[0]),
     ("DATA_TOPIC_ROOT", DataTopicRoot(f.publishPrefix, f.partner)),
     ("ZENOH_VERIFY_NAME_ON_CONNECT", Bool(f.verifyName)),
     ("ZENOH_PLUGINS_LOADING_ENABLED", Bool(f.pluginsLoading)),
     ("LISTEN_CERT_PEM", f.profile.listenCertificate),
     ("LISTEN_KEY_PEM", f.profile.listenKey),
     ("CONNECT_CERT_PEM", f.profile.connectCertificate),
     ("CONNECT_KEY_PEM", f.profile.connectKey),
     ("CA_ROOTS_PEM", f.profile.rootCa)]
  }

  function Placeholder(key: string): (r: string)
    ensures |r| > 0 && r[0] == '$'
  {
    "${" + key + "}"
  }

  /** Python's `text.replace(pattern, value)`. */
  function Replace(text: string, pattern: string, value: string): string
    requires pattern != ""
    decreases |text|
  {
    if text == [] then []
    else if pattern <= text then value + Replace(text[|pattern|..], pattern, value)
    else [text[0]] + Replace(text[1..], pattern, value)
  }

  function Substituted(text: string, subs: seq<(string, string)>): string
    decreases subs
  {
    if subs == [] then text
    else Substituted(Replace(text, Placeholder(subs[0].0), subs[0].1), subs[1..])
  }

  predicate Holds(text: string, pattern: string) {
    exists i, j | 0 <= i <= j <= |text| :: text[i..j] == pattern
  }

  datatype RenderError = NoTemplate | Unresolved | InvalidJson5

  /** `_render_config`; `parses` tells whether a text is JSON5. */
  function RenderConfig(template: Option<string>, f: ConfigFields, parses: string -> bool): Result<string, RenderError> {
    if template.None? then Err(NoTemplate)
    else
      var rendered := Substituted(template.value, Substitutions(f));
      var _ :- Check(forall s | s in Substitutions(f) :: !Holds(rendered, Placeholder(s.0)), Unresolved);
      var _ :- Check(parses(rendered), InvalidJson5);
      Ok(rendered)
  }

  // ----- what rendering writes -----

  /** A template, cut at its placeholders. */
  datatype Piece = Literal(text: string) | Hole(key: string)

  function Write(piece: Piece): string {
    match piece case Literal(text) => text case Hole(key) => Placeholder(key)
  }

  function Written(pieces: seq<Piece>): string {
    if pieces == [] then "" else Write(pieces[0]) + Written(pieces[1..])
  }

  predicate ProperPiece(piece: Piece) {
    match piece case Literal(text) => '$' !in text case Hole(key) => '$' !in key && '}' !in key
  }

  predicate Proper(pieces: seq<Piece>) {
    forall i | 0 <= i < |pieces| :: ProperPiece(pieces[i])
  }

  function FillOne(piece: Piece, key: string, value: string): Piece {
    if piece == Hole(key) then Literal(value) else piece
  }

  function Fill(pieces: seq<Piece>, key: string, value: string): seq<Piece> {
    seq(|pieces|, i requires 0 <= i < |pieces| => FillOne(pieces[i], key, value))
  }

  lemma {:induction false} SkipLiteral(text: string, rest: string, pattern: string, value: string)
    requires '$' !in text && pattern != "" && pattern[0] == '$'
    ensures Replace(text + rest, pattern, value) == text + Replace(rest, pattern, value)
  {
    if text == "" {
      assert text + rest == rest;
    } else {
      assert text[0] in text && (text + rest)[0] == text[0] && (text + rest)[1..] == text[1..] + rest;
      SkipLiteral(text[1..], rest, pattern, value);
      assert text == [text[0]] + text[1..];
    }
  }

  /** A placeholder is met only where it is written. */
  lemma {:induction false} SameUpToBrace(key: string, other: string, rest: string)
    requires '}' !in key && '}' !in other && key + "}" <= other + "}" + rest
    ensures key == other
  {
    assert key != "" ==> key[0] in key;
    assert other != "" ==> other[0] in other;
    var a, b := key + "}", other + "}" + rest;
    assert a[0] == b[0];
    if key != "" {
      assert a[1..] == key[1..] + "}" && b[1..] == other[1..] + "}" + rest;
      SameUpToBrace(key[1..], other[1..], rest);
      assert key == [key[0]] + key[1..] && other == [other[0]] + other[1..];
    }
  }

  lemma SamePlaceholder(key: string, other: string, rest: string)
    requires '}' !in key && '}' !in other && Placeholder(key) <= Placeholder(other) + rest
    ensures key == other
  {
    var a, b := Placeholder(key), Placeholder(other) + rest;
    assert a[2..] == key + "}" && b[2..] == other + "}" + rest;
    SameUpToBrace(key, other, rest);
  }

  lemma {:induction false} ReplaceFills(pieces: seq<Piece>, key: string, value: string)
    requires Proper(pieces) && '}' !in key
    ensures Replace(Written(pieces), Placeholder(key), value) == Written(Fill(pieces, key, value))
  {
    if pieces != [] {
      var head, rest := pieces[0], pieces[1..];
      assert Fill(pieces, key, value)[1..] == Fill(rest, key, value);
      assert ProperPiece(pieces[0]);
      assert forall i | 0 <= i < |rest| :: rest[i] == pieces[i + 1];
      ReplaceFills(rest, key, value);
      ReplaceHead(head, Written(rest), key, value);
    }
  }

  lemma ReplaceHead(head: Piece, rest: string, key: string, value: string)
    requires ProperPiece(head) && '}' !in key
    ensures Replace(Write(head) + rest, Placeholder(key), value) == Write(FillOne(head, key, value)) + Replace(rest, Placeholder(key), value)
  {
    if head == Hole(key) {
      ReplaceHole(rest, key, value);
    } else if head.Literal? {
      hide Replace, Placeholder;
      SkipLiteral(head.text, rest, Placeholder(key), value);
    } else {
      hide Replace, Placeholder;
      SkipHole(head.key, rest, key, value);
    }
  }

  lemma ReplaceHole(rest: string, key: string, value: string)
    ensures Replace(Placeholder(key) + rest, Placeholder(key), value) == value + Replace(rest, Placeholder(key), value)
  {
    var pattern := Placeholder(key);
    var text := pattern + rest;
    assert pattern <= text && text[|pattern|..] == rest;
    hide Placeholder;
  }

  lemma SkipHole(other: string, rest: string, key: string, value: string)
    requires other != key && '}' !in key && '}' !in other && '$' !in other
    ensures Replace(Placeholder(other) + rest, Placeholder(key), value) == Placeholder(other) + Replace(rest, Placeholder(key), value)
  {
    var pattern, tail := Placeholder(key), "{" + other + "}";
    var text := Placeholder(other) + rest;
    if pattern <= text {
      SamePlaceholder(key, other, rest);
    }
    assert Placeholder(other) == "$" + tail && text[0] == '$' && text[1..] == tail + rest;
    SkipLiteral(tail, rest, pattern, value);
    hide Placeholder;
    assert Replace(text, pattern, value) == [text[0]] + Replace(text[1..], pattern, value);
  }

  function FillAll(pieces: seq<Piece>, subs: seq<(string, string)>): seq<Piece>
    decreases subs
  {
    if subs == [] then pieces else FillAll(Fill(pieces, subs[0].0, subs[0].1), subs[1..])
  }

  predicate ProperSubs(subs: seq<(string, string)>) {
    forall s | s in subs :: '}' !in s.0 && '$' !in s.1
  }

  lemma {:induction false} SubstitutedFills(pieces: seq<Piece>, subs: seq<(string, string)>)
    requires Proper(pieces) && ProperSubs(subs)
    ensures Substituted(Written(pieces), subs) == Written(FillAll(pieces, subs))
    decreases subs
  {
    if subs != [] {
      assert subs[0] in subs;
      ReplaceFills(pieces, subs[0].0, subs[0].1);
      SubstitutedFills(Fill(pieces, subs[0].0, subs[0].1), subs[1..]);
    }
  }

  /** What stands for a key, if it is one of the fifteen. */
  function ValueOf(f: ConfigFields, key: string): Option<string> {
    if key == "ZENOH_LISTEN_ENDPOINTS" then Some(EndpointList(ListenEndpoints(f)))
    else if key == "ZENOH_LOCAL_TCP_PORT" then Some(Decimal(f.localTcpPort))
    else if key == "ZENOH_CONNECT_ENDPOINTS" then Some(EndpointList(FabricEndpoints(f)))
    else if key == "PARTNER_NAMESPACE" then Some(f.partner)
    else if key == "INBOUND_NAMESPACE" then Some(f.inbound)
    else if key == "NAMESPACE_PREFIX" then Some(f.namespacePrefix)
    else if key == "NAMESPACE_ROOT" then Some(Split(f.namespacePrefix)[0])
    else if key == "DATA_TOPIC_ROOT" then Some(DataTopicRoot(f.publishPrefix, f.partner))
    else if key == "ZENOH_VERIFY_NAME_ON_CONNECT" then Some(Bool(f.verifyName))
    else if key == "ZENOH_PLUGINS_LOADING_ENABLED" then Some(Bool(f.pluginsLoading))
    else if key == "LISTEN_CERT_PEM" then Some(f.profile.listenCertificate)
    else if key == "LISTEN_KEY_PEM" then Some(f.profile.listenKey)
    else if key == "CONNECT_CERT_PEM" then Some(f.profile.connectCertificate)
    else if key == "CONNECT_KEY_PEM" then Some(f.profile.connectKey)
    else if key == "CA_ROOTS_PEM" then Some(f.profile.rootCa)
    else None
  }

  /** Each placeholder of a known key gives way to the key's value; all else stays. */
  function Filled(pieces: seq<Piece>, f: ConfigFields): string {
    if pieces == [] then ""
    else
      (match pieces[0]
       case Literal(text) => text
       case Hole(key) => (match ValueOf(f, key) case Some(value) => value case None => Placeholder(key)))
      + Filled(pieces[1..], f)
  }

  function FirstValue(subs: seq<(string, string)>, key: string): Option<string>
    decreases subs
  {
    if subs == [] then None else if subs[0].0 == key then Some(subs[0].1) else FirstValue(subs[1..], key)
  }

  lemma {:induction false} FillAllAt(pieces: seq<Piece>, subs: seq<(string, string)>)
    ensures |FillAll(pieces, subs)| == |pieces|
    ensures forall i | 0 <= i < |pieces| :: FillAll(pieces, subs)[i] ==
              match pieces[i]
              case Literal(_) => pieces[i]
              case Hole(key) => (match FirstValue(subs, key) case Some(value) => Literal(value) case None => pieces[i])
    decreases subs
  {
    if subs != [] {
      FillAllAt(Fill(pieces, subs[0].0, subs[0].1), subs[1..]);
    }
  }

  /** The last seven of the keys, and all of them. */
  lemma LaterValues(f: ConfigFields, key: string)
    ensures FirstValue(Substitutions(f)[8..], key)
            == if key == "ZENOH_VERIFY_NAME_ON_CONNECT" then Some(Bool(f.verifyName))
               else if key == "ZENOH_PLUGINS_LOADING_ENABLED" then Some(Bool(f.pluginsLoading))
               else if key == "LISTEN_CERT_PEM" then Some(f.profile.listenCertificate)
               else if key == "LISTEN_KEY_PEM" then Some(f.profile.listenKey)
               else if key == "CONNECT_CERT_PEM" then Some(f.profile.connectCertificate)
               else if key == "CONNECT_KEY_PEM" then Some(f.profile.connectKey)
               else if key == "CA_ROOTS_PEM" then Some(f.profile.rootCa)
               else None
  {
    hide EndpointList, ListenEndpoints, FabricEndpoints, Decimal, DataTopicRoot, Split, Bool;
    var s := Substitutions(f);
    assert s[15..] == [];
    assert FirstValue(s[15..], key) == None;
    hide FirstValue;
    FirstValueAt(s, 8, key);
    FirstValueAt(s, 9, key);
    FirstValueAt(s, 10, key);
    FirstValueAt(s, 11, key);
    FirstValueAt(s, 12, key);
    FirstValueAt(s, 13, key);
    FirstValueAt(s, 14, key);
  }

  lemma MiddleValues(f: ConfigFields, key: string)
    ensures FirstValue(Substitutions(f)[4..], key)
            == if key == "INBOUND_NAMESPACE" then Some(f.inbound)
               else if key == "NAMESPACE_PREFIX" then Some(f.namespacePrefix)
               else if key == "NAMESPACE_ROOT" then Some(Split(f.namespacePrefix)[0])
               else if key == "DATA_TOPIC_ROOT" then Some(DataTopicRoot(f.publishPrefix, f.partner))
               else FirstValue(Substitutions(f)[8..], key)
  {
    hide EndpointList, ListenEndpoints, FabricEndpoints, Decimal, DataTopicRoot, Split, Bool, FirstValue;
    var s := Substitutions(f);
    FirstValueAt(s, 4, key);
    FirstValueAt(s, 5, key);
    FirstValueAt(s, 6, key);
    FirstValueAt(s, 7, key);
  }

  lemma EarlyValues(f: ConfigFields, key: string)
    ensures FirstValue(Substitutions(f), key)
            == if key == "ZENOH_LISTEN_ENDPOINTS" then Some(EndpointList(ListenEndpoints(f)))
               else if key == "ZENOH_LOCAL_TCP_PORT" then Some(Decimal(f.localTcpPort))
               else if key == "ZENOH_CONNECT_ENDPOINTS" then Some(EndpointList(FabricEndpoints(f)))
               else if key == "PARTNER_NAMESPACE" then Some(f.partner)
               else FirstValue(Substitutions(f)[4..], key)
  {
    hide EndpointList, ListenEndpoints, FabricEndpoints, Decimal, DataTopicRoot, Split, Bool, FirstValue;
    var s := Substitutions(f);
    assert s[0..] == s;
    FirstValueAt(s, 0, key);
    FirstValueAt(s, 1, key);
    FirstValueAt(s, 2, key);
    FirstValueAt(s, 3, key);
  }

  lemma FirstValues(f: ConfigFields, key: string)
    ensures FirstValue(Substitutions(f), key) == ValueOf(f, key)
  {
    hide Substitutions, EndpointList, ListenEndpoints, FabricEndpoints, Decimal, DataTopicRoot, Split, Bool, FirstValue;
    EarlyValues(f, key);
    MiddleValues(f, key);
    LaterValues(f, key);
  }

  lemma FirstValueAt(subs: seq<(string, string)>, i: nat, key: string)
    requires i < |subs|
    ensures FirstValue(subs[i..], key) == if subs[i].0 == key then Some(subs[i].1) else FirstValue(subs[i + 1..], key)
  {
    assert subs[i..][1..] == subs[i + 1..];
  }

  lemma {:induction false} WrittenIsFilled(pieces: seq<Piece>, filled: seq<Piece>, f: ConfigFields)
    requires |filled| == |pieces|
    requires forall i | 0 <= i < |pieces| :: filled[i] ==
               match pieces[i]
               case Literal(_) => pieces[i]
               case Hole(key) => (match ValueOf(f, key) case Some(value) => Literal(value) case None => pieces[i])
    ensures Written(filled) == Filled(pieces, f)
  {
    hide ValueOf, Placeholder;
    if pieces != [] {
      assert forall i | 0 <= i < |pieces| - 1 :: filled[1..][i] == filled[i + 1] && pieces[1..][i] == pieces[i + 1];
      WrittenIsFilled(pieces[1..], filled[1..], f);
    }
  }

  /** Rendering writes, for each placeholder, the value of its key and nothing else, in whatever
      order the keys are substituted. */
  lemma RenderedExactly(pieces: seq<Piece>, f: ConfigFields, parses: string -> bool)
    requires Proper(pieces) && ValidFields(f) && ValidProfile(f.profile)
    requires RenderConfig(Some(Written(pieces)), f, parses).Ok?
    ensures RenderConfig(Some(Written(pieces)), f, parses).value == Filled(pieces, f)
  {
    ProperSubstitutions(f);
    RenderWrites(Written(pieces), f, parses);
    hide *;
    SubstitutedFills(pieces, Substitutions(f));
    FillAllValues(pieces, f);
    WrittenIsFilled(pieces, FillAll(pieces, Substitutions(f)), f);
  }

  lemma RenderWrites(template: string, f: ConfigFields, parses: string -> bool)
    requires RenderConfig(Some(template), f, parses).Ok?
    ensures RenderConfig(Some(template), f, parses).value == Substituted(template, Substitutions(f))
  {
    hide Substituted, Substitutions, Holds;
  }

  lemma FillAllValues(pieces: seq<Piece>, f: ConfigFields)
    ensures var filled := FillAll(pieces, Substitutions(f));
            && |filled| == |pieces|
            && forall i | 0 <= i < |pieces| :: filled[i] ==
                 match pieces[i]
                 case Literal(_) => pieces[i]
                 case Hole(key) => (match ValueOf(f, key) case Some(value) => Literal(value) case None => pieces[i])
  {
    hide Substitutions, ValueOf, FillAll, FirstValue;
    FillAllAt(pieces, Substitutions(f));
    forall i | 0 <= i < |pieces| && pieces[i].Hole?
      ensures FirstValue(Substitutions(f), pieces[i].key) == ValueOf(f, pieces[i].key)
    {
      FirstValues(f, pieces[i].key);
    }
  }

  lemma ProperSubstitutions(f: ConfigFields)
    requires ValidFields(f) && ValidProfile(f.profile)
    ensures ProperSubs(Substitutions(f))
  {
    ValuesCost(f);
    KeysAreProper(f);
    hide Cost, Substitutions, ValidFields, ValidProfile;
    forall s | s in Substitutions(f)
      ensures '$' !in s.1
    {
      NoDollar(s.1);
    }
  }

  lemma KeysAreProper(f: ConfigFields)
    ensures forall s | s in Substitutions(f) :: '}' !in s.0
  {
    hide EndpointList, ListenEndpoints, FabricEndpoints, Decimal, DataTopicRoot, Split, Bool;
    LongKeys();
    ShortKeys();
    var s := Substitutions(f);
    assert forall i | 0 <= i < 8 :: '}' !in s[i].0;
    assert forall i | 8 <= i < 15 :: '}' !in s[i].0;
  }

  lemma LongKeys()
    ensures '}' !in "ZENOH_LISTEN_ENDPOINTS" && '}' !in "ZENOH_LOCAL_TCP_PORT" && '}' !in "ZENOH_CONNECT_ENDPOINTS"
    ensures '}' !in "ZENOH_VERIFY_NAME_ON_CONNECT" && '}' !in "ZENOH_PLUGINS_LOADING_ENABLED"
  {}

  lemma ShortKeys()
    ensures '}' !in "PARTNER_NAMESPACE" && '}' !in "INBOUND_NAMESPACE" && '}' !in "NAMESPACE_PREFIX" && '}' !in "NAMESPACE_ROOT"
    ensures '}' !in "DATA_TOPIC_ROOT" && '}' !in "LISTEN_CERT_PEM" && '}' !in "LISTEN_KEY_PEM"
    ensures '}' !in "CONNECT_CERT_PEM" && '}' !in "CONNECT_KEY_PEM" && '}' !in "CA_ROOTS_PEM"
  {}

  lemma {:induction false} NoDollar(s: string)
    requires Cost(s) < MAX_VALUE_COST
    ensures '$' !in s
  {
    if s != "" {
      NoDollar(s[1..]);
      assert s == [s[0]] + s[1..];
    }
  }

  // ----- what escaping a rendered text can cost -----

  const MAX_VALUE_COST := 50

  /** The excess of a text, and for each dollar sign the most that a value in its place costs. */
  function Cost(s: string): nat {
    if s == [] then 0
    else |Escaped(s[0])| - Utf8Size(s[0]) + (if s[0] == '$' then MAX_VALUE_COST else 0) + Cost(s[1..])
  }

  lemma {:induction false} CostAppend(a: string, b: string)
    ensures Cost(a + b) == Cost(a) + Cost(b)
  {
    hide Escaped, Utf8Size;
    if a == [] {
      assert a + b == b;
    } else {
      CostAppend(a[1..], b);
      assert (a + b)[0] == a[0] && (a + b)[1..] == a[1..] + b;
    }
  }

  lemma {:induction false} CostCoversExcess(s: string)
    ensures Excess(s) <= Cost(s)
  {
    hide Escaped, Utf8Size;
    if s != [] {
      CostCoversExcess(s[1..]);
    }
  }

  /** Putting values for placeholders never makes a text costlier: each takes a dollar sign away. */
  lemma {:induction false} ReplaceCost(text: string, pattern: string, value: string)
    requires pattern != "" && pattern[0] == '$' && Cost(value) <= MAX_VALUE_COST
    ensures Cost(Replace(text, pattern, value)) <= Cost(text)
    decreases |text|
  {
    if text != [] {
      if pattern <= text {
        var rest := text[|pattern|..];
        assert text == pattern + rest;
        CostAppend(pattern, rest);
        ReplaceCost(rest, pattern, value);
        CostAppend(value, Replace(rest, pattern, value));
      } else {
        ReplaceCost(text[1..], pattern, value);
        CostAppend([text[0]], Replace(text[1..], pattern, value));
        assert [text[0]][1..] == [];
      }
    }
  }

  lemma {:induction false} SubstitutedCost(text: string, subs: seq<(string, string)>)
    requires forall s | s in subs :: Cost(s.1) < MAX_VALUE_COST
    ensures Cost(Substituted(text, subs)) <= Cost(text)
    decreases subs
  {
    if subs != [] {
      assert subs[0] in subs;
      var next := Replace(text, Placeholder(subs[0].0), subs[0].1);
      ReplaceCost(text, Placeholder(subs[0].0), subs[0].1);
      SubstitutedCost(next, subs[1..]);
    }
  }

  // ----- what a value can cost -----

  predicate Free(s: string) {
    forall c | c in s :: Plain(c) && c != '$'
  }

  lemma {:induction false} FreeCost(s: string)
    requires Free(s)
    ensures Cost(s) == 0 && JsonText(s) == s
  {
    hide UnicodeEscape;
    if s != [] {
      assert s[0] in s;
      FreeCost(s[1..]);
      assert s == [s[0]] + s[1..];
    }
  }

  lemma LineFeedCost()
    ensures Cost("\n") == 1 && JsonText("\n") == "\\n" && Cost("\\n") == 1
  {
    assert "\n"[1..] == "" && "\\n"[1..] == "n" && "n"[1..] == "";
  }

  /** A validated text costs nothing but its line feed, also when it is written as JSON. */
  lemma MatchedCost(s: string)
    requires Matches(s, EndpointChar)
    ensures Cost(s) <= 1 && Cost(JsonText(s)) <= 1
  {
    var n := |s| - 1;
    var body, last := s[..n], s[n..];
    assert s == body + last && last == [s[n]];
    MatchedBody(s);
    LineFeedCost();
    hide Cost, JsonText, Matches, Free;
    FreeCost(body);
    if last != "\n" {
      FreeCost(last);
    }
    CostAppend(body, last);
    JsonTextAppend(body, last);
    CostAppend(body, JsonText(last));
  }

  lemma MatchedBody(s: string)
    requires Matches(s, EndpointChar)
    ensures Free(s[..|s| - 1]) && (Free([s[|s| - 1]]) || [s[|s| - 1]] == "\n")
  {
    hide Cost, JsonText;
  }

  lemma PathIsEndpoint(s: string)
    requires Matches(s, PathChar)
    ensures Matches(s, EndpointChar)
  {}

  lemma {:induction false} StripCost(s: string)
    ensures Cost(Strip(s)) <= Cost(s)
  {
    if s != [] && s[0] == '/' {
      StripCost(s[1..]);
    } else {
      RStripCost(s);
    }
  }

  lemma RStripCost(s: string)
    ensures Cost(RStrip(s)) <= Cost(s)
  {
    assert s == RStrip(s) + s[|RStrip(s)|..];
    CostAppend(RStrip(s), s[|RStrip(s)|..]);
  }

  lemma {:induction false} FirstSegmentCost(s: string)
    ensures Cost(Split(s)[0]) <= Cost(s)
  {
    if s != [] {
      FirstSegmentCost(s[1..]);
    }
  }

  lemma RootCost(prefix: string, partner: string)
    ensures Cost(DataTopicRoot(prefix, partner)) <= Cost(prefix) + Cost(partner)
  {
    var p, n := Strip(prefix), Strip(partner);
    StripCost(prefix);
    StripCost(partner);
    FreeCost("/");
    hide Cost, Strip;
    CostAppend(p + "/", n);
    CostAppend(p, "/");
  }

  lemma {:induction false} StringsCost(items: seq<string>)
    requires forall s | s in items :: Cost(JsonText(s)) <= 1
    ensures Cost(Strings(items, " ")) <= 3 * |items|
  {
    FreeCost("");
    hide Cost, JsonText, Quoted;
    if items != [] {
      var head, rest := items[0], items[1..];
      assert head in items;
      QuotedCost(head);
      if rest != [] {
        StringsCost(rest);
        CostAppend(Quoted(head), "," + " " + Strings(rest, " "));
        SeparatorCost(Strings(rest, " "));
      }
    }
  }

  lemma SeparatorCost(s: string)
    ensures Cost("," + " " + s) == Cost(s)
  {
    FreeCost("," + " ");
    hide Cost;
    CostAppend("," + " ", s);
  }

  lemma QuotedCost(s: string)
    requires Cost(JsonText(s)) <= 1
    ensures Cost(Quoted(s)) <= 3
  {
    assert "\""[1..] == [] && Cost("\"") == 1;
    hide Cost, JsonText;
    CostAppend("\"" + JsonText(s), "\"");
    CostAppend("\"", JsonText(s));
  }

  lemma ListCost(endpoints: seq<string>)
    requires |endpoints| <= MAX_FABRIC_ENDPOINTS && forall e | e in endpoints :: Cost(JsonText(e)) <= 1
    ensures Cost(EndpointList(endpoints)) < MAX_VALUE_COST
  {
    StringsCost(endpoints);
    var inner := Strings(endpoints, " ");
    CostAppend("[" + inner, "]");
    CostAppend("[", inner);
    FreeCost("[");
    FreeCost("]");
  }

  lemma ListensPlainly(f: ConfigFields)
    ensures |ListenEndpoints(f)| <= 3 && forall e | e in ListenEndpoints(f) :: Cost(JsonText(e)) <= 1
  {
    hide Cost, JsonText, Decimal;
    forall e | e in ListenEndpoints(f)
      ensures Cost(JsonText(e)) <= 1
    {
      FreeCost(e);
    }
  }

  lemma EndpointsCost(f: ConfigFields)
    requires ValidFields(f)
    ensures Cost(EndpointList(ListenEndpoints(f))) < MAX_VALUE_COST
    ensures Cost(EndpointList(FabricEndpoints(f))) < MAX_VALUE_COST
  {
    hide Cost, JsonText, Matches, EndpointList;
    ListensPlainly(f);
    ListCost(ListenEndpoints(f));
    forall e | e in FabricEndpoints(f)
      ensures Cost(JsonText(e)) <= 1
    {
      MatchedCost(e);
    }
    ListCost(FabricEndpoints(f));
  }

  lemma WordsCost(f: ConfigFields)
    ensures Cost(Decimal(f.localTcpPort)) == 0 && Cost(Bool(f.verifyName)) == 0 && Cost(Bool(f.pluginsLoading)) == 0
  {
    hide Cost, JsonText, Decimal;
    FreeCost(Decimal(f.localTcpPort));
    FreeCost("true");
    FreeCost("false");
  }

  lemma ValuesCost(f: ConfigFields)
    requires ValidFields(f) && ValidProfile(f.profile)
    ensures forall s | s in Substitutions(f) :: Cost(s.1) < MAX_VALUE_COST
  {
    hide Cost, Substitutions, EndpointList, ListenEndpoints, FabricEndpoints, DataTopicRoot, Split, Decimal, Bool, ValidFields, ValidProfile;
    EndpointsCost(f);
    WordsCost(f);
    NamesCost(f);
    ProfileCost(f.profile);
    SubstitutionsAre(f);
  }

  lemma SubstitutionsAre(f: ConfigFields)
    ensures var p := f.profile;
            forall s | s in Substitutions(f) ::
              s.1 in [EndpointList(ListenEndpoints(f)), Decimal(f.localTcpPort), EndpointList(FabricEndpoints(f)),
                      f.partner, f.inbound, f.namespacePrefix, Split(f.namespacePrefix)[0], DataTopicRoot(f.publishPrefix, f.partner),
                      Bool(f.verifyName), Bool(f.pluginsLoading),
                      p.listenCertificate, p.listenKey, p.connectCertificate, p.connectKey, p.rootCa]
  {
    hide Decimal, EndpointList, ListenEndpoints, FabricEndpoints, DataTopicRoot, Split, Bool;
  }

  lemma NamesCost(f: ConfigFields)
    requires ValidFields(f)
    ensures Cost(f.partner) <= 1 && Cost(f.inbound) <= 1 && Cost(f.namespacePrefix) <= 1
    ensures Cost(Split(f.namespacePrefix)[0]) <= 1 && Cost(DataTopicRoot(f.publishPrefix, f.partner)) <= 1
  {
    PathIsEndpoint(f.partner);
    PathIsEndpoint(f.inbound);
    PathIsEndpoint(f.namespacePrefix);
    assert Free(f.publishPrefix);
    hide Cost, JsonText, Matches, Free, Split, DataTopicRoot;
    MatchedCost(f.partner);
    MatchedCost(f.inbound);
    MatchedCost(f.namespacePrefix);
    FirstSegmentCost(f.namespacePrefix);
    FreeCost(f.publishPrefix);
    RootCost(f.publishPrefix, f.partner);
  }

  lemma ProfileCost(p: TlsProfile)
    requires ValidProfile(p)
    ensures Cost(p.listenCertificate) == 0 && Cost(p.listenKey) == 0 && Cost(p.connectCertificate) == 0
    ensures Cost(p.connectKey) == 0 && Cost(p.rootCa) == 0
  {
    FreeCost(p.listenCertificate);
    FreeCost(p.listenKey);
    FreeCost(p.connectCertificate);
    FreeCost(p.connectKey);
    FreeCost(p.rootCa);
  }

  /** Whatever valid fields are substituted, the rendered text is no costlier than its template. */
  lemma RenderedCost(template: string, f: ConfigFields, parses: string -> bool)
    requires ValidFields(f) && ValidProfile(f.profile) && RenderConfig(Some(template), f, parses).Ok?
    ensures Excess(RenderConfig(Some(template), f, parses).value) <= Cost(template)
  {
    hide Cost, Excess, Substitutions, Substituted, ValidFields, ValidProfile, Holds;
    ValuesCost(f);
    SubstitutedCost(template, Substitutions(f));
    CostCoversExcess(RenderConfig(Some(template), f, parses).value);
  }
}
