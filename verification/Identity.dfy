/** Router identities: normalised namespace paths, SPIFFE URIs, and the textual
    descendant test that every delegation grant has to pass. */
module Identity {
  import opened Text

  type Uri = string

  datatype PathResult = Path(value: string) | PathError

  predicate PathChar(c: char) {
    'A' <= c <= 'Z' || 'a' <= c <= 'z' || '0' <= c <= '9' || c == '.' || c == '_' || c == '/' || c == '-'
  }

  /** A name that the live topology accepts for a router. */
  predicate TopologyName(n: string) {
    1 <= |n| <= 255 && forall c | c in n :: PathChar(c)
  }

  predicate HasDoubleSlash(s: string) {
    exists i | 0 <= i < |s| - 1 :: s[i] == '/' && s[i + 1] == '/'
  }

  predicate Normal(s: string) {
    && 1 <= |s| <= 512
    && (forall c | c in s :: PathChar(c))
    && !HasDoubleSlash(s)
    && s[0] != '/' && s[|s| - 1] != '/'
  }

  /** `normalize_path`. */
  function NormalizePath(value: string): (r: PathResult)
    ensures r.Path? ==> Normal(r.value)
    ensures Normal(value) ==> r == Path(value)
  {
    var stripped := Strip(value);
    if !(1 <= |stripped| <= 512) || (exists c | c in stripped :: !PathChar(c)) || HasDoubleSlash(stripped)
    then PathError
    else Path(stripped)
  }

  /** `router_identity`, for a given trust domain. */
  function RouterIdentity(domain: string, namespacePath: string): PathResult {
    match NormalizePath(namespacePath)
    case Path(p) => Path("spiffe://" + domain + "/router/" + p)
    case PathError => PathError
  }

  /** `child_namespace`: a requested name is either already below the parent or a leaf
      to be placed directly under it. */
  function ChildNamespace(parentPath: string, requested: string): PathResult {
    match (NormalizePath(parentPath), NormalizePath(requested))
    case (Path(parent), Path(candidate)) =>
      if parent + "/" <= candidate then Path(candidate)
      else if '/' in candidate then PathError
      else Path(parent + "/" + candidate)
    case _ => PathError
  }

  /** The check `subject.startswith(issuer.rstrip("/") + "/")`. */
  predicate DescendantTest(issuer: Uri, subject: Uri) {
    RStrip(issuer) + "/" <= subject
  }

  /** A real descendant: further path text below the issuer, trailing slashes aside. */
  predicate StrictlyBelow(issuer: Uri, subject: Uri) {
    RStrip(issuer) + "/" <= RStrip(subject)
  }

  /** The test, together with `issuer != subject`, is meant to mean a strict descendant.
      It does so exactly when the two differ by more than trailing slashes. */
  lemma DescendantTestExact(issuer: Uri, subject: Uri)
    requires DescendantTest(issuer, subject)
    ensures StrictlyBelow(issuer, subject) <==> RStrip(subject) != RStrip(issuer)
  {}

  /** A pair of identities that passes both checks although neither is below the other. */
  lemma DescendantTestAcceptsTrailingSlashes()
    ensures var issuer, subject := "spiffe://efdi.global/router/a//", "spiffe://efdi.global/router/a/";
            DescendantTest(issuer, subject) && issuer != subject && !StrictlyBelow(issuer, subject)
  {
    var issuer, subject := "spiffe://efdi.global/router/a//", "spiffe://efdi.global/router/a/";
    var bare := "spiffe://efdi.global/router/a";
    assert issuer[..|issuer| - 1] == subject && subject[..|subject| - 1] == bare;
    assert RStrip(bare) == bare;
    assert RStrip(subject) == bare;
    assert RStrip(issuer) == bare;
  }

  lemma PrefixUpToSlash(a: Uri, b: Uri)
    requires DescendantTest(a, b)
    ensures |RStrip(b)| >= |RStrip(a)|
  {}

  lemma DescendantTransitive(a: Uri, b: Uri, c: Uri)
    requires DescendantTest(a, b) && DescendantTest(b, c)
    ensures DescendantTest(a, c)
  {
    var p := RStrip(a) + "/";
    var s := RStrip(b);
    if |s| < |p| {
      PrefixUpToSlash(a, b);
      assert s + "/" == p;
    } else {
      assert p <= s;
    }
  }

  /** Every accepted child name is a normal path below its parent, except that a leaf may
      make it longer than a path may be: it names a router exactly when it fits. */
  lemma ChildNamespaceBelow(domain: string, parentPath: string, requested: string)
    requires ChildNamespace(parentPath, requested).Path?
    ensures var child := ChildNamespace(parentPath, requested).value;
            && NormalizePath(parentPath).value + "/" < child
            && (RouterIdentity(domain, child).Path? <==> |child| <= 512)
            && (|child| <= 512 ==>
                var issuer := RouterIdentity(domain, parentPath).value;
                var subject := RouterIdentity(domain, child).value;
                issuer != subject && DescendantTest(issuer, subject) && StrictlyBelow(issuer, subject))
  {
    hide RStrip, HasDoubleSlash;
    var parent := NormalizePath(parentPath).value;
    var candidate := NormalizePath(requested).value;
    var child := ChildNamespace(parentPath, requested).value;
    if !(parent + "/" <= candidate) {
      LeafIsNormal(parent, candidate);
    }
    if |child| <= 512 {
      var head := "spiffe://" + domain + "/router/";
      NoTrailingSlash(head + parent);
      NoTrailingSlash(head + child);
      assert head + parent + "/" <= head + child;
    } else {
      StripKeepsEnds(child);
    }
  }

  lemma NoTrailingSlash(s: string)
    requires s != [] && s[|s| - 1] != '/'
    ensures RStrip(s) == s
  {}

  lemma StripKeepsEnds(s: string)
    requires s != [] && s[0] != '/' && s[|s| - 1] != '/'
    ensures Strip(s) == s
  {}

  lemma LeafIsNormal(parent: string, leaf: string)
    requires Normal(parent) && Normal(leaf) && '/' !in leaf
    ensures var child := parent + "/" + leaf;
            child[0] != '/' && child[|child| - 1] != '/' && (|child| <= 512 ==> Normal(child))
  {}

  /** Two paths give one identity only when they normalise alike. */
  lemma RouterIdentityInjective(domain: string, a: string, b: string)
    requires RouterIdentity(domain, a).Path? && RouterIdentity(domain, a) == RouterIdentity(domain, b)
    ensures NormalizePath(a) == NormalizePath(b)
  {
    var head := "spiffe://" + domain + "/router/";
    var p, q := NormalizePath(a).value, NormalizePath(b).value;
    assert (head + p)[|head|..] == p && (head + q)[|head|..] == q;
  }
}
