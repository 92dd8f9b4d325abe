/** The small ACL key-scope language of delegation grants: literal segments with an
    optional terminal wildcard. The containment test is shown to decide inclusion of
    the sets of keys the two scopes admit. */
module KeyScope {
  import opened Text

  const MAX_EXPRESSION := 1024
  const MAX_SEGMENT := 128
  const MAX_SCOPES := 128

  datatype Scope = Scope(parts: seq<string>, wildcard: bool)

  datatype ParseResult = Parsed(scope: Scope) | ScopeError

  predicate SegmentChar(c: char) {
    'A' <= c <= 'Z' || 'a' <= c <= 'z' || '0' <= c <= '9' || c == '.' || c == '_' || c == '-'
  }

  predicate Segment(s: string) {
    1 <= |s| <= MAX_SEGMENT && forall c | c in s :: SegmentChar(c)
  }

  /** A concrete key: one or more literal segments. */
  predicate Key(k: seq<string>) {
    |k| >= 1 && forall s | s in k :: Segment(s)
  }

  predicate WellFormed(s: Scope) {
    Key(s.parts)
  }

  function Parse(expression: string): (r: ParseResult)
    ensures r.Parsed? ==> WellFormed(r.scope)
  {
    if !(1 <= |expression| <= MAX_EXPRESSION) then ScopeError
    else if expression[0] == '/' || expression[|expression| - 1] == '/' then ScopeError
    else
      var parts := Split(expression);
      var wildcard := parts[|parts| - 1] == "**";
      var literal := if wildcard then parts[..|parts| - 1] else parts;
      if |literal| == 0 || exists p | p in literal :: !Segment(p) then ScopeError
      else Parsed(Scope(literal, wildcard))
  }

  /** The expression a scope was written as. */
  function Render(s: Scope): string {
    Join(s.parts + if s.wildcard then ["**"] else [])
  }

  lemma ParseRender(expression: string)
    requires Parse(expression).Parsed?
    ensures Render(Parse(expression).scope) == expression
  {
    var parts := Split(expression);
    var s := Parse(expression).scope;
    assert s.parts + (if s.wildcard then ["**"] else []) == parts;
    JoinSplit(expression);
  }

  lemma {:induction false} JoinEnds(parts: seq<string>)
    requires |parts| >= 1
    requires SlashFree(parts)
    requires forall i | 0 <= i < |parts| :: parts[i] != []
    ensures |Join(parts)| >= 1
    ensures Join(parts)[0] != '/' && Join(parts)[|Join(parts)| - 1] != '/'
  {
    var head := parts[0];
    assert head[0] in head && head[|head| - 1] in head;
    if |parts| > 1 {
      JoinEnds(parts[1..]);
      assert Join(parts)[0] == parts[0][0];
    }
  }

  lemma RenderParses(s: Scope)
    requires WellFormed(s) && |Render(s)| <= MAX_EXPRESSION
    ensures Parse(Render(s)) == Parsed(s)
  {
    hide Split, Join;
    var all := s.parts + if s.wildcard then ["**"] else [];
    PartsAreClean(s.parts);
    assert forall i | 0 <= i < |all| :: all[i] in s.parts || all[i] == "**";
    SplitJoin(all);
    JoinEnds(all);
    hide Segment;
    if s.wildcard {
      assert all[..|all| - 1] == s.parts;
    } else {
      assert all == s.parts;
    }
  }

  lemma PartsAreClean(parts: seq<string>)
    requires Key(parts)
    ensures forall p | p in parts :: p != [] && '/' !in p && p != "**"
  {
    assert "**"[0] in "**";
  }

  /** The expressions that parse to a scope are exactly its rendering, when that is well
      formed and short enough: parsing and rendering are mutually inverse. */
  lemma ParseInvertsRender(s: Scope, expression: string)
    ensures Parse(expression) == Parsed(s)
            <==> WellFormed(s) && |expression| <= MAX_EXPRESSION && expression == Render(s)
  {
    if Parse(expression) == Parsed(s) {
      ParseRender(expression);
    }
    if WellFormed(s) && |expression| <= MAX_EXPRESSION && expression == Render(s) {
      RenderParses(s);
    }
  }

  /** Which keys a scope admits: one key, or a whole subtree including its root. */
  predicate Admits(s: Scope, key: seq<string>) {
    if s.wildcard then s.parts <= key else s.parts == key
  }

  predicate AdmittedBy(scopes: seq<Scope>, key: seq<string>) {
    exists s | s in scopes :: Admits(s, key)
  }

  /** `scope_contains` on parsed scopes. */
  predicate Contains(parent: Scope, child: Scope) {
    if !parent.wildcard then !child.wildcard && child.parts == parent.parts
    else |child.parts| >= |parent.parts| && child.parts[..|parent.parts|] == parent.parts
  }

  datatype ContainsResult = Answer(value: bool) | ContainsError

  /** `scope_contains` on expressions: an unparsable side is an error, not an answer. */
  function ScopeContains(parent: string, child: string): ContainsResult {
    match (Parse(parent), Parse(child))
    case (Parsed(p), Parsed(c)) => Answer(Contains(p, c))
    case _ => ContainsError
  }

  /** The containment test decides inclusion of the admitted key sets. */
  lemma ContainsIsInclusion(parent: Scope, child: Scope)
    requires WellFormed(parent) && WellFormed(child)
    ensures Contains(parent, child)
            <==> forall k | Key(k) && Admits(child, k) :: Admits(parent, k)
  {
    if (forall k | Key(k) && Admits(child, k) :: Admits(parent, k)) {
      assert Admits(parent, child.parts);
      var longer := child.parts + ["x"];
      assert Segment("x");
      assert Key(longer);
      if child.wildcard {
        assert Admits(child, longer);
      }
    }
  }

  /** On expressions: an answer is given exactly when both sides parse, and it tells whether
      every key of the child is a key of the parent. */
  lemma ScopeContainsDecides(parent: string, child: string)
    ensures ScopeContains(parent, child).Answer? <==> Parse(parent).Parsed? && Parse(child).Parsed?
    ensures ScopeContains(parent, child).Answer? ==>
      (ScopeContains(parent, child).value
       <==> forall k | Key(k) && Admits(Parse(child).scope, k) :: Admits(Parse(parent).scope, k))
  {
    if Parse(parent).Parsed? && Parse(child).Parsed? {
      ContainsIsInclusion(Parse(parent).scope, Parse(child).scope);
    }
  }

  /** A family of 129 different segments, one more than the scopes of any grant. */
  function Candidate(i: nat): (s: string)
    requires i <= MAX_SCOPES
    ensures Segment(s)
  {
    if i < MAX_SCOPES then seq(i + 1, _ => 'x') else "y"
  }

  lemma CandidatesDiffer(i: nat, j: nat)
    requires i < j <= MAX_SCOPES
    ensures Candidate(i) != Candidate(j)
  {
    if j == MAX_SCOPES {
      assert Candidate(i)[0] == 'x' && Candidate(j)[0] == 'y';
    } else {
      assert |Candidate(i)| == i + 1 && |Candidate(j)| == j + 1;
    }
  }

  lemma {:induction false} CandidatesNeedRoom(n: nat, used: set<string>)
    requires n <= MAX_SCOPES + 1
    requires forall i | 0 <= i < n :: Candidate(i) in used
    ensures n <= |used|
  {
    if n > 0 {
      var last := Candidate(n - 1);
      forall i | 0 <= i < n - 1
        ensures Candidate(i) in used - {last}
      {
        CandidatesDiffer(i, n - 1);
      }
      CandidatesNeedRoom(n - 1, used - {last});
    }
  }

  lemma {:induction false} FewElements(s: seq<string>)
    ensures |(set x | x in s)| <= |s|
  {
    if s != [] {
      FewElements(s[1..]);
      assert (set x | x in s) == {s[0]} + (set x | x in s[1..]);
    }
  }

  /** Some segment is the `at`-th segment of none of a grant's scopes. */
  lemma FreshSegment(scopes: seq<Scope>, at: nat) returns (spare: string)
    requires |scopes| <= MAX_SCOPES
    ensures Segment(spare)
    ensures forall s | s in scopes && at < |s.parts| :: s.parts[at] != spare
  {
    var taken := seq(|scopes|, i requires 0 <= i < |scopes| =>
      if at < |scopes[i].parts| then scopes[i].parts[at] else "");
    FewElements(taken);
    var used := set x | x in taken;
    if (forall i | 0 <= i < MAX_SCOPES + 1 :: Candidate(i) in used) {
      CandidatesNeedRoom(MAX_SCOPES + 1, used);
      assert false;
    }
    var i: nat :| i <= MAX_SCOPES && Candidate(i) !in used;
    spare := Candidate(i);
    forall s | s in scopes && at < |s.parts|
      ensures s.parts[at] != spare
    {
      var j :| 0 <= j < |scopes| && scopes[j] == s;
      assert taken[j] in used;
    }
  }

  /** The any-of-list test of `grant_is_subset`. */
  predicate AllCovered(requested: seq<Scope>, allowed: seq<Scope>) {
    forall r | r in requested :: exists a | a in allowed :: Contains(a, r)
  }

  /** Covering each requested scope by ONE allowed scope loses nothing: it decides whether
      the union of the requested keys lies inside the union of the allowed keys. */
  lemma AllCoveredIsInclusion(requested: seq<Scope>, allowed: seq<Scope>)
    requires |allowed| <= MAX_SCOPES
    requires forall s | s in requested || s in allowed :: WellFormed(s)
    ensures AllCovered(requested, allowed)
            <==> forall k | Key(k) && AdmittedBy(requested, k) :: AdmittedBy(allowed, k)
  {
    if AllCovered(requested, allowed) {
      forall k | Key(k) && AdmittedBy(requested, k)
        ensures AdmittedBy(allowed, k)
      {
        var r :| r in requested && Admits(r, k);
        var a :| a in allowed && Contains(a, r);
        ContainsIsInclusion(a, r);
      }
    }
    if (forall k | Key(k) && AdmittedBy(requested, k) :: AdmittedBy(allowed, k)) {
      forall r | r in requested
        ensures exists a | a in allowed :: Contains(a, r)
      {
        CoveringScope(r, allowed, requested);
      }
    }
  }

  lemma CoveringScope(r: Scope, allowed: seq<Scope>, requested: seq<Scope>)
    requires |allowed| <= MAX_SCOPES && r in requested
    requires WellFormed(r)
    requires forall k | Key(k) && AdmittedBy(requested, k) :: AdmittedBy(allowed, k)
    ensures exists a | a in allowed :: Contains(a, r)
  {
    var spare := FreshSegment(allowed, |r.parts|);
    var k := if r.wildcard then r.parts + [spare] else r.parts;
    assert Key(k) && Admits(r, k);
    assert AdmittedBy(requested, k);
    var a :| a in allowed && Admits(a, k);
    assert Contains(a, r);
  }
}
