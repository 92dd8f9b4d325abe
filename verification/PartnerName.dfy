/** The partner namespace written into a configuration, and what a router reads back out
    of one. The name is not stored as such: it is recovered from the data key expressions. */
module PartnerName {
  import opened Text
  import opened Identity

  /** An access-control rule of a rendered configuration. */
  datatype Rule = Rule(id: string, keys: seq<string>)

  /** `_data_topic_root`. */
  function DataTopicRoot(prefix: string, partner: string): string {
    var p, n := Strip(prefix), Strip(partner);
    if p == "" then n else if n == "" then p else p + "/" + n
  }

  /** Python's `key.rsplit("/", 1)[-1]`. */
  function LastSegment(key: string): (r: string)
    ensures '/' !in r
    ensures '/' !in key ==> r == key
    ensures |r| <= |key| && r == key[|key| - |r|..]
  {
    if key == [] || key[|key| - 1] == '/' then []
    else
      var n := |key| - 1;
      assert key == key[..n] + [key[n]];
      LastSegment(key[..n]) + [key[n]]
  }

  /** The name found in the storage key expression. */
  function StorageName(publishPrefix: string, key: string): string {
    var bare := RemoveWildcard(key);
    if bare == key then ""
    else if publishPrefix != "" then
      if publishPrefix + "/" < bare then bare[|publishPrefix| + 1..] else ""
    else if '/' in bare then "" else bare
  }

  function NameFromKey(publishPrefix: string, key: string, otherwise: string): string {
    if publishPrefix != "" && publishPrefix + "/" <= key then key[|publishPrefix| + 1..]
    else if key != "" then LastSegment(key)
    else otherwise
  }

  /** What the rules say, the first-party rules overriding the storage name in turn, up to
      the inbound rule. */
  function NameFromRules(publishPrefix: string, rules: seq<Rule>, name: string): string
    decreases rules
  {
    if rules == [] then name
    else
      var next :=
        if rules[0].id == "pod-firstparty" && rules[0].keys != []
        then NameFromKey(publishPrefix, RemoveWildcard(rules[0].keys[0]), name) else name;
      if rules[0].id == "pod-inbound" && rules[0].keys != [] then next
      else NameFromRules(publishPrefix, rules[1..], next)
  }

  /** The partner namespace part of `_extract_fields`. */
  method ExtractPartner(publishPrefix: string, storageKey: string, rules: seq<Rule>) returns (partner: string)
    ensures partner == NameFromRules(publishPrefix, rules, StorageName(publishPrefix, storageKey))
  {
    partner := StorageName(publishPrefix, storageKey);
    var i := 0;
    while i < |rules|
      invariant 0 <= i <= |rules|
      invariant NameFromRules(publishPrefix, rules[i..], partner)
                == NameFromRules(publishPrefix, rules, StorageName(publishPrefix, storageKey))
    {
      assert rules[i..][1..] == rules[i + 1..];
      if rules[i].id == "pod-firstparty" && rules[i].keys != [] {
        partner := NameFromKey(publishPrefix, RemoveWildcard(rules[i].keys[0]), partner);
      }
      if rules[i].id == "pod-inbound" && rules[i].keys != [] {
        return;
      }
      i := i + 1;
    }
  }

  /** A name is found in the storage key exactly when the key is that name behind the data prefix,
      or a single segment where there is none, with a wildcard behind it. */
  lemma StorageNameExactly(publishPrefix: string, key: string, name: string)
    requires name != ""
    ensures StorageName(publishPrefix, key) == name <==>
            if publishPrefix == "" then key == name + "/**" && '/' !in name else key == publishPrefix + "/" + name + "/**"
  {
    var bare := RemoveWildcard(key);
    if bare != key {
      assert key == bare + "/**";
    }
    var whole := if publishPrefix == "" then name else publishPrefix + "/" + name;
    if key == whole + "/**" {
      assert key[|key| - 3..] == "/**" && key[..|key| - 3] == whole;
    }
    assert publishPrefix != "" ==> whole[|publishPrefix| + 1..] == name;
  }

  /** What a first-party key gives: the rest behind the data prefix, or else its last segment, or
      nothing new when it is empty. */
  lemma KeyNameExactly(publishPrefix: string, key: string, otherwise: string)
    ensures var name := NameFromKey(publishPrefix, key, otherwise);
            && (key == "" ==> name == otherwise)
            && (Leads(publishPrefix, key) ==> key == publishPrefix + "/" + name)
            && (key != "" && !Leads(publishPrefix, key) ==>
                  '/' !in name && (key == name || (|key| > |name| && key == key[..|key| - |name| - 1] + "/" + name)))
  {
    LastSegmentEnds(key);
    hide LastSegment;
    if Leads(publishPrefix, key) {
      assert key == publishPrefix + "/" + key[|publishPrefix| + 1..];
    }
  }

  lemma {:induction false} LastSegmentEnds(key: string)
    ensures var r := LastSegment(key);
            key == r || (|key| > |r| && key == key[..|key| - |r| - 1] + "/" + r)
  {
    hide LastSegment;
    LastSegmentStep(key);
    if key != "" && key[|key| - 1] != '/' {
      var body, last := key[..|key| - 1], [key[|key| - 1]];
      LastSegmentEnds(body);
      var r := LastSegment(body);
      assert key == body + last;
      if body != r {
        assert key == body[..|body| - |r| - 1] + "/" + (r + last);
      }
    }
  }

  predicate StopsReading(rule: Rule) {
    rule.id == "pod-inbound" && rule.keys != []
  }

  /** Rules are read in order, each on its own, up to and including the first inbound rule that
      has keys; only first-party rules that have keys say anything. */
  lemma {:induction false} RulesInOrder(publishPrefix: string, a: seq<Rule>, b: seq<Rule>, name: string)
    ensures (forall r | r in a :: !StopsReading(r)) ==>
              NameFromRules(publishPrefix, a + b, name) == NameFromRules(publishPrefix, b, NameFromRules(publishPrefix, a, name))
    ensures (exists r | r in a :: StopsReading(r)) ==>
              NameFromRules(publishPrefix, a + b, name) == NameFromRules(publishPrefix, a, name)
    decreases a
  {
    hide NameFromKey;
    if a == [] {
      assert a + b == b;
    } else {
      assert (a + b)[0] == a[0] && (a + b)[1..] == a[1..] + b;
      assert forall r :: r in a <==> r == a[0] || r in a[1..];
      var next := if a[0].id == "pod-firstparty" && a[0].keys != []
                  then NameFromKey(publishPrefix, RemoveWildcard(a[0].keys[0]), name) else name;
      assert NameFromRules(publishPrefix, a, name) == if StopsReading(a[0]) then next else NameFromRules(publishPrefix, a[1..], next);
      assert NameFromRules(publishPrefix, a + b, name) == if StopsReading(a[0]) then next else NameFromRules(publishPrefix, a[1..] + b, next);
      RulesInOrder(publishPrefix, a[1..], b, next);
    }
  }

  lemma OneRule(publishPrefix: string, rule: Rule, name: string)
    ensures NameFromRules(publishPrefix, [rule], name) ==
            if rule.id == "pod-firstparty" && rule.keys != []
            then NameFromKey(publishPrefix, RemoveWildcard(rule.keys[0]), name) else name
  {
    assert [rule][1..] == [];
  }

  /** The part of a configuration that names its router. */
  datatype Template = Template(storageKey: string, rules: seq<Rule>)

  /** What the template is rendered to. */
  function RenderedTemplate(prefix: string, partner: string, inbound: string): Template {
    Template(DataTopicRoot(prefix, partner) + "/**",
             [Rule("pod-firstparty", [DataTopicRoot(prefix, partner) + "/**"]),
              Rule("pod-inbound", [inbound + "/**"])])
  }

  /** The name that a router with data prefix `q` reads out of a configuration. */
  function NameIn(q: string, t: Template): string {
    NameFromRules(q, t.rules, StorageName(q, t.storageKey))
  }

  /** The name that is read out of a text rendered with `prefix` for `partner`. */
  function NameAt(q: string, prefix: string, partner: string): string {
    NameIn(q, RenderedTemplate(prefix, partner, ""))
  }

  predicate Leads(q: string, key: string) {
    q != "" && q + "/" <= key
  }

  /** What is read: the rest of the data root behind the reader's own prefix, when that leads
      the root, and its last segment otherwise. */
  lemma NameIsRead(q: string, prefix: string, partner: string, inbound: string)
    requires partner != "" && Strip(partner) == partner && Strip(prefix) == prefix
    ensures var root := DataTopicRoot(prefix, partner);
            NameIn(q, RenderedTemplate(prefix, partner, inbound))
            == if Leads(q, root) then root[|q| + 1..] else LastSegment(partner)
  {
    var root := DataTopicRoot(prefix, partner);
    var t := RenderedTemplate(prefix, partner, inbound);
    var name := StorageName(q, t.storageKey);
    var key := root + "/**";
    assert key[|key| - 3..] == "/**" && key[..|key| - 3] == root;
    assert t.rules[1..][1..] == [];
    assert NameFromRules(q, t.rules, name) == NameFromKey(q, root, name);
    LastOfRoot(prefix, partner);
  }

  /** A router with data prefix `q` reads back the name it was sent exactly when `q` leads the
      data root and is the prefix the configuration was rendered with, or when `q` does not
      lead it and the name is a single segment. */
  lemma PartnerReadsBack(prefix: string, partner: string, inbound: string, q: string)
    requires partner != "" && Strip(partner) == partner && Strip(prefix) == prefix
    ensures NameIn(q, RenderedTemplate(prefix, partner, inbound)) == partner
            <==> if Leads(q, DataTopicRoot(prefix, partner)) then q == prefix else '/' !in partner
  {
    NameIsRead(q, prefix, partner, inbound);
    var root := DataTopicRoot(prefix, partner);
    if Leads(q, root) {
      if root[|q| + 1..] == partner {
        assert |root| == |q| + 1 + |partner|;
        assert root[..|q|] == q;
        assert prefix != "" ==> root[..|prefix|] == prefix;
      }
      if q == prefix {
        assert root == q + "/" + partner;
      }
    }
  }

  /** Even where the prefixes agree, on the empty one, a name of two segments is cut. */
  lemma EmptyPrefixCutsTheName()
    ensures NameAt("", "", "a/b") == "b"
  {
    hide NameIn, LastSegment;
    assert Strip("a/b") == "a/b" && DataTopicRoot("", "a/b") == "a/b";
    NameIsRead("", "", "a/b", "");
    assert "a/b" == "a/" + "b";
    LastAfterSlash("a/", "b");
    LastOfOne("b");
  }

  lemma LastOfOne(key: string)
    requires '/' !in key
    ensures LastSegment(key) == key
  {}

  lemma LastOfRoot(prefix: string, partner: string)
    requires partner != "" && Strip(partner) == partner && Strip(prefix) == prefix
    ensures LastSegment(DataTopicRoot(prefix, partner)) == LastSegment(partner)
  {
    if prefix != "" {
      LastAfterSlash(prefix + "/", partner);
    }
  }

  lemma LastSegmentStep(key: string)
    ensures LastSegment(key) == if key == [] || key[|key| - 1] == '/' then [] else LastSegment(key[..|key| - 1]) + [key[|key| - 1]]
  {}

  lemma {:induction false} LastAfterSlash(head: string, tail: string)
    requires head != [] && head[|head| - 1] == '/'
    ensures LastSegment(head + tail) == LastSegment(tail)
  {
    hide LastSegment;
    var all := head + tail;
    LastSegmentStep(all);
    LastSegmentStep(tail);
    if tail == [] {
      assert all == head;
    } else {
      var n := |tail| - 1;
      assert all[|all| - 1] == tail[n] && all[..|all| - 1] == head + tail[..n];
      LastAfterSlash(head, tail[..n]);
    }
  }

  // ----- when another router may take a name for its own -----

  /** A name or prefix without empty segments. */
  predicate Clean(s: string) {
    s != "" && s[0] != '/' && s[|s| - 1] != '/' && !HasDoubleSlash(s)
  }

  /** A name that a router called `parent` can enroll, as far as its place goes; the unnamed
      root can enroll any. */
  predicate Below(parent: string, n: string) {
    parent == "" || parent + "/" <= n
  }

  /** Whether a router named `n` with data prefix `q`, enrolled by `parent`, never takes a
      configuration that was rendered with `prefix` for a sibling as its own. */
  predicate SafeAt(q: string, prefix: string, parent: string, n: string) {
    if q == prefix then prefix != "" || '/' in n
    else if q == "" then '/' in n
    else if prefix == "" then !Below(parent, q + "/" + n)
    else if q + "/" <= prefix then
      var rest := prefix[|q| + 1..];
      !(rest + "/" <= n && Below(parent, n[|rest| + 1..]))
    else if prefix + "/" <= q then !Below(parent, q[|prefix| + 1..] + "/" + n)
    else '/' in n
  }

  lemma CleanIsStripped(s: string)
    requires Clean(s)
    ensures Strip(s) == s
  {}

  lemma CleanSuffix(s: string, head: string)
    requires Clean(s) && head + "/" <= s
    ensures Clean(s[|head| + 1..])
  {
    var t := s[|head| + 1..];
    assert s[|head|] == '/' && |s| > |head| + 1;
    if t != "" {
      assert s[|head| + 1] == t[0];
      forall i | 0 <= i < |t| - 1
        ensures !(t[i] == '/' && t[i + 1] == '/')
      {
        assert s[i + |head| + 1] == t[i] && s[i + |head| + 2] == t[i + 1];
      }
    }
  }

  lemma CleanJoin(a: string, b: string)
    requires Clean(a) && Clean(b)
    ensures Clean(a + "/" + b)
  {
    var s := a + "/" + b;
    forall i | 0 <= i < |s| - 1
      ensures !(s[i] == '/' && s[i + 1] == '/')
    {
      if i + 1 < |a| {
        assert a[i] == s[i] && a[i + 1] == s[i + 1];
      } else if i > |a| {
        assert b[i - |a| - 1] == s[i] && b[i - |a|] == s[i + 1];
      }
    }
  }

  lemma Comparable(a: string, b: string, s: string)
    requires a <= s && b <= s
    ensures a <= b || b <= a
  {
    assert a == s[..|a|] && b == s[..|b|];
  }

  /** A safe router reads its own name out of nothing that was meant for a sibling. */
  lemma SafeReadsNoOther(q: string, prefix: string, parent: string, n: string, partner: string)
    requires (q == "" || Clean(q)) && (prefix == "" || Clean(prefix)) && Clean(partner) && partner != n
    requires Below(parent, n) && Below(parent, partner) && SafeAt(q, prefix, parent, n)
    ensures NameAt(q, prefix, partner) != n
  {
    CleanIsStripped(partner);
    if prefix != "" {
      CleanIsStripped(prefix);
    }
    NameIsRead(q, prefix, partner, "");
    hide Strip, LastSegment, NameAt, Clean;
    var root := DataTopicRoot(prefix, partner);
    if Leads(q, root) {
      LedReadsNoOther(q, prefix, parent, n, partner);
    } else if LastSegment(partner) == n {
      NotLedIsSingle(q, prefix, parent, n, partner);
    }
  }

  lemma BelowHasSlash(parent: string, n: string)
    ensures Below(parent, n) && parent != "" ==> '/' in n
  {
    assert Below(parent, n) && parent != "" ==> n[|parent|] == '/';
  }

  /** Where the reader's prefix leads the root, only the sibling that SafeAt rules out reads as `n`. */
  lemma LedReadsNoOther(q: string, prefix: string, parent: string, n: string, partner: string)
    requires partner != n && Below(parent, partner) && SafeAt(q, prefix, parent, n)
    requires var root := if prefix == "" then partner else prefix + "/" + partner; Leads(q, root)
    ensures var root := if prefix == "" then partner else prefix + "/" + partner; root[|q| + 1..] != n
  {
    if prefix == "" {
      assert partner == q + "/" + partner[|q| + 1..];
    } else {
      var root := prefix + "/" + partner;
      if q == prefix {
        assert root[|q| + 1..] == partner;
      } else {
        Comparable(q + "/", prefix + "/", root);
        LeadingRest(q, prefix, partner);
        if q + "/" <= prefix {
          CutInPrefix(q, prefix, partner);
        } else {
          CutInPartner(q, prefix, partner);
        }
      }
    }
  }

  lemma CutInPrefix(q: string, prefix: string, partner: string)
    requires q + "/" <= prefix
    ensures var rest, read := prefix[|q| + 1..], (prefix + "/" + partner)[|q| + 1..];
            rest + "/" <= read && read[|rest| + 1..] == partner
  {
    var rest := prefix[|q| + 1..];
    assert (prefix + "/" + partner)[|q| + 1..] == rest + "/" + partner;
  }

  lemma CutInPartner(q: string, prefix: string, partner: string)
    requires prefix + "/" <= q && q + "/" <= prefix + "/" + partner
    ensures partner == q[|prefix| + 1..] + "/" + (prefix + "/" + partner)[|q| + 1..]
  {
    var root, rest := prefix + "/" + partner, q[|prefix| + 1..];
    assert q == prefix + "/" + rest && root == prefix + "/" + rest + "/" + root[|q| + 1..];
    assert root[|prefix| + 1..] == partner;
  }

  /** Where it does not, only a single segment can be read, and only at the unnamed root's. */
  lemma NotLedIsSingle(q: string, prefix: string, parent: string, n: string, partner: string)
    requires Below(parent, n) && '/' !in n
    requires var root := if prefix == "" then partner else prefix + "/" + partner; !Leads(q, root)
    ensures !SafeAt(q, prefix, parent, n)
  {
    BelowHasSlash(parent, n);
    assert prefix != "" ==> prefix <= prefix + "/" + partner;
  }

  lemma SameLength(a: string, b: string)
    requires |a| == |b| && (a + "/" <= b + "/" || b + "/" <= a + "/")
    ensures a == b
  {
    assert a == (a + "/")[..|a|] && b == (b + "/")[..|b|];
  }

  lemma LeadingRest(q: string, prefix: string, partner: string)
    requires q != "" && q != prefix && Leads(q, prefix + "/" + partner)
    requires q + "/" <= prefix + "/" || prefix + "/" <= q + "/"
    ensures q + "/" <= prefix || prefix + "/" <= q
    ensures q + "/" <= prefix ==> (prefix + "/" + partner)[|q| + 1..] == prefix[|q| + 1..] + "/" + partner
  {
    if q + "/" <= prefix + "/" && |q| < |prefix| {
      assert (prefix + "/")[..|q| + 1] == prefix[..|q| + 1];
    } else if prefix + "/" <= q + "/" && |prefix| < |q| {
      assert (q + "/")[..|prefix| + 1] == q[..|prefix| + 1];
    } else {
      SameLength(q, prefix);
    }
  }

  lemma LedByOwnPrefix(q: string, prefix: string, partner: string, n: string)
    requires q != "" && Clean(partner) && (prefix == "" || Clean(prefix))
    requires (if prefix == "" then partner else prefix + "/" + partner) == q + "/" + n
    ensures NameAt(q, prefix, partner) == n
  {
    CleanIsStripped(partner);
    if prefix != "" {
      CleanIsStripped(prefix);
    }
    NameIsRead(q, prefix, partner, "");
    hide NameIn, Clean;
    assert (q + "/" + n)[|q| + 1..] == n;
  }

  lemma CutToLastSegment(q: string, prefix: string, n: string)
    requires (prefix == "" || Clean(prefix)) && Clean(n) && '/' !in n
    requires q == "" || (q != prefix && prefix != "" && !(q + "/" <= prefix) && !(prefix + "/" <= q))
    ensures Clean("x/" + n) && NameAt(q, prefix, "x/" + n) == n
  {
    CleanJoin("x", n);
    var partner := "x" + "/" + n;
    assert partner == "x/" + n;
    CleanIsStripped(partner);
    if prefix != "" {
      CleanIsStripped(prefix);
    }
    NameIsRead(q, prefix, partner, "");
    LastAfterSlash("x/", n);
    LastOfOne(n);
    hide NameIn, Clean, LastSegment, Strip;
    if q != "" && Leads(q, prefix + "/" + partner) {
      Comparable(q + "/", prefix + "/", prefix + "/" + partner);
      LeadingRest(q, prefix, partner);
    }
  }

  /** An unsafe router takes the configuration of some possible sibling as its own. */
  lemma UnsafeReadsAnother(q: string, prefix: string, parent: string, n: string) returns (partner: string)
    requires (q == "" || Clean(q)) && (prefix == "" || Clean(prefix)) && Clean(n)
    requires Below(parent, n) && !SafeAt(q, prefix, parent, n)
    ensures Clean(partner) && Below(parent, partner) && partner != n && NameAt(q, prefix, partner) == n
  {
    hide Clean, NameAt;
    if q != "" && prefix == "" {
      partner := q + "/" + n;
      CleanJoin(q, n);
      LedByOwnPrefix(q, prefix, partner, n);
    } else if q != "" && q != prefix && q + "/" <= prefix {
      var rest := prefix[|q| + 1..];
      CleanSuffix(n, rest);
      partner := n[|rest| + 1..];
      assert prefix == q + "/" + rest && n == rest + "/" + partner;
      LedByOwnPrefix(q, prefix, partner, n);
    } else if q != "" && q != prefix && prefix + "/" <= q {
      var rest := q[|prefix| + 1..];
      CleanSuffix(q, prefix);
      CleanJoin(rest, n);
      partner := rest + "/" + n;
      assert q == prefix + "/" + rest;
      LedByOwnPrefix(q, prefix, partner, n);
    } else {
      BelowHasSlash(parent, n);
      CutToLastSegment(q, prefix, n);
      partner := "x/" + n;
    }
  }

  /** The exact condition on a router: with it, and only with it, no configuration that is
      rendered with `prefix` for a possible sibling reads as its own. */
  lemma NeverMisreadExactly(q: string, prefix: string, parent: string, n: string)
    requires (q == "" || Clean(q)) && (prefix == "" || Clean(prefix)) && Clean(n) && Below(parent, n)
    ensures SafeAt(q, prefix, parent, n)
            <==> forall t | Clean(t) && Below(parent, t) && t != n :: NameAt(q, prefix, t) != n
  {
    hide NameAt, SafeAt, Clean;
    if SafeAt(q, prefix, parent, n) {
      forall t | Clean(t) && Below(parent, t) && t != n
        ensures NameAt(q, prefix, t) != n
      {
        SafeReadsNoOther(q, prefix, parent, n, t);
      }
    } else {
      var t := UnsafeReadsAnother(q, prefix, parent, n);
    }
  }
}
