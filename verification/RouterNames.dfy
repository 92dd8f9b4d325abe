/** Where enrollment places a router: the name of a child lies below that of its parent. */
module RouterNames {
  import opened Text
  import opened Identity
  import opened PartnerName

  /** `_full_namespace` of a router; the empty name is that of an unnamed root. */
  function FullName(org: string, n: string): string {
    DataTopicRoot(org, n)
  }

  /** The child names that enrollment at a router can produce. */
  predicate CanEnroll(org: string, parent: string, child: string) {
    && Strip(parent) == parent && Strip(child) == child
    && ChildNamespace(FullName(org, parent), FullName(org, child)) == Path(FullName(org, child))
  }

  lemma FullParts(org: string, n: string)
    requires Strip(n) == n
    ensures var o := Strip(org);
            FullName(org, n) == if o == "" then n else if n == "" then o else o + "/" + n
    ensures Strip(FullName(org, n)) == FullName(org, n)
  {
    var o := Strip(org);
    if o != "" && n != "" {
      StripKeepsEnds(o + "/" + n);
    }
  }

  /** An explicit full name is accepted only behind the full name of the parent. */
  lemma ExplicitIsBehind(parent: string, full: string)
    requires Strip(parent) == parent && NormalizePath(full).Path? && ChildNamespace(parent, full) == Path(full)
    ensures Normal(parent) && Normal(full) && parent + "/" <= full
  {
    hide HasDoubleSlash;
    var candidate := NormalizePath(full).value;
    if !(parent + "/" <= candidate) {
      StripKeepsEnds(full);
    }
  }

  lemma TailIsClean(head: string, n: string)
    requires Normal(head + "/" + n) && n != ""
    ensures Clean(n)
  {
    var full := head + "/" + n;
    assert full[|head|] == '/' && full[|head| + 1] == n[0];
    forall i | 0 <= i < |n| - 1
      ensures !(n[i] == '/' && n[i + 1] == '/')
    {
      assert full[i + |head| + 1] == n[i] && full[i + |head| + 2] == n[i + 1];
    }
  }

  /** A child's name has no empty segments and lies below that of its parent. */
  lemma EnrolledIsBelow(org: string, parent: string, child: string)
    requires CanEnroll(org, parent, child)
    ensures Clean(child) && Below(parent, child) && child != parent
  {
    var o, p, c := Strip(org), FullName(org, parent), FullName(org, child);
    FullParts(org, parent);
    FullParts(org, child);
    ExplicitIsBehind(p, c);
    hide *;
    BehindIsBelow(o, p, c, parent, child);
  }

  lemma BehindIsBelow(o: string, p: string, c: string, parent: string, child: string)
    requires p == (if o == "" then parent else if parent == "" then o else o + "/" + parent)
    requires c == (if o == "" then child else if child == "" then o else o + "/" + child)
    requires Normal(c) && p + "/" <= c
    ensures Clean(child) && Below(parent, child) && child != parent
  {
    hide Normal, Clean;
    if o == "" {
      NormalIsClean(child);
    } else {
      assert child != "";
      TailIsClean(o, child);
      assert c[|o| + 1..] == child;
      assert parent != "" ==> (p + "/")[|o| + 1..] == parent + "/";
    }
  }

  lemma NormalIsClean(n: string)
    requires Normal(n)
    ensures Clean(n)
  {}

  lemma BehindIsEnrollable(org: string, parent: string, child: string)
    requires Strip(parent) == parent && Strip(child) == child
    requires Normal(FullName(org, parent)) && Normal(FullName(org, child))
    requires FullName(org, parent) + "/" <= FullName(org, child)
    ensures CanEnroll(org, parent, child)
  {}

  /** Whatever name is asked for, an enrollment that goes through is of such a name: the full
      name of the child without the organisation's prefix. */
  lemma RequestIsEnrollable(org: string, own: string, requested: string) returns (child: string)
    requires Strip(own) == own && ChildNamespace(FullName(org, own), requested).Path?
    requires NormalizePath(ChildNamespace(FullName(org, own), requested).value).Path?
    ensures FullName(org, child) == ChildNamespace(FullName(org, own), requested).value
    ensures CanEnroll(org, own, child)
  {
    var o, p, full := Strip(org), FullName(org, own), ChildNamespace(FullName(org, own), requested).value;
    FullParts(org, own);
    RequestIsNormal(p, requested);
    hide Normal, ChildNamespace, NormalizePath, FullName, Strip;
    child := if o == "" then full else full[|o| + 1..];
    assert full == if o == "" then child else o + "/" + child;
    ChildIsStripped(o, child, full);
    FullParts(org, child);
    BehindIsEnrollable(org, own, child);
  }

  lemma RequestIsNormal(parent: string, requested: string)
    requires Strip(parent) == parent && ChildNamespace(parent, requested).Path?
    requires NormalizePath(ChildNamespace(parent, requested).value).Path?
    ensures Normal(parent) && Normal(ChildNamespace(parent, requested).value)
    ensures parent + "/" < ChildNamespace(parent, requested).value
  {
    hide HasDoubleSlash;
    ChildNamespaceBelow("", parent, requested);
    var candidate := NormalizePath(requested).value;
    if !(parent + "/" <= candidate) {
      LeafIsNormal(parent, candidate);
      StripKeepsEnds(parent + "/" + candidate);
    }
  }

  lemma ChildIsStripped(o: string, child: string, full: string)
    requires Normal(full) && child != "" && full == if o == "" then child else o + "/" + child
    ensures Strip(child) == child
  {
    if o != "" {
      TailIsClean(o, child);
    }
    CleanIsStripped(child);
  }

  /** Two names that the unnamed root of an organisation can give. */
  lemma SlotNames()
    ensures CanEnroll("EFDI", "", "a/b") && CanEnroll("EFDI", "", "b") && Clean("a/b")
  {
    SlotParts();
    SlotFullNames();
    hide CanEnroll, FullName, Normal, Strip;
    BehindIsEnrollable("EFDI", "", "a/b");
    BehindIsEnrollable("EFDI", "", "b");
  }

  lemma SlotParts()
    ensures Strip("") == "" && Strip("a/b") == "a/b" && Strip("b") == "b" && Strip("EFDI") == "EFDI"
    ensures Normal("EFDI") && Normal("EFDI/a/b") && Normal("EFDI/b") && Clean("a/b")
  {}

  lemma SlotFullNames()
    ensures FullName("EFDI", "") == "EFDI" && FullName("EFDI", "a/b") == "EFDI/a/b" && FullName("EFDI", "b") == "EFDI/b"
  {
    SlotParts();
    hide Strip, Normal;
    FullParts("EFDI", "");
    FullParts("EFDI", "a/b");
    FullParts("EFDI", "b");
  }
}
