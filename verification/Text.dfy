/** String helpers shared by the trust and federation models: splitting and joining
    on '/', stripping slashes, and the encoded size of a text. */
module Text {

  /** Python's `s.split("/")`. */
  function Split(s: string): (parts: seq<string>)
    ensures |parts| >= 1
  {
    if s == [] then [[]]
    else
      var rest := Split(s[1..]);
      if s[0] == '/' then [[]] + rest else [[s[0]] + rest[0]] + rest[1..]
  }

  /** Python's `"/".join(parts)`. */
  function Join(parts: seq<string>): string {
    if |parts| == 0 then ""
    else if |parts| == 1 then parts[0]
    else parts[0] + "/" + Join(parts[1..])
  }

  lemma {:induction false} JoinSplit(s: string)
    ensures Join(Split(s)) == s
  {
    if s != [] {
      JoinSplit(s[1..]);
      var rest := Split(s[1..]);
      if s[0] == '/' {
        assert ([[]] + rest)[1..] == rest;
      } else if |rest| > 1 {
        assert ([[s[0]] + rest[0]] + rest[1..])[1..] == rest[1..];
      }
    }
  }

  predicate SlashFree(parts: seq<string>) {
    forall i | 0 <= i < |parts| :: '/' !in parts[i]
  }

  /** Parts that hold no '/' come back unchanged from joining and splitting. */
  lemma {:induction false} SplitJoin(parts: seq<string>)
    requires |parts| >= 1 && SlashFree(parts)
    ensures Split(Join(parts)) == parts
    decreases |parts|, |parts[0]|
  {
    var head := parts[0];
    if head == [] {
      if |parts| > 1 {
        SplitJoin(parts[1..]);
        assert Join(parts)[1..] == Join(parts[1..]);
        assert parts == [[]] + parts[1..];
      } else {
        assert parts == [[]];
      }
    } else {
      var shorter := [head[1..]] + parts[1..];
      assert shorter[1..] == parts[1..];
      assert forall c | c in head[1..] :: c in head;
      SplitJoin(shorter);
      assert Join(parts)[1..] == Join(shorter);
      assert head[0] in head;
      assert [head[0]] + head[1..] == head;
    }
  }

  /** Python's `s.rstrip("/")`. */
  function RStrip(s: string): (r: string)
    ensures r <= s
    ensures r == [] || r[|r| - 1] != '/'
    ensures forall i | |r| <= i < |s| :: s[i] == '/'
  {
    if s != [] && s[|s| - 1] == '/' then RStrip(s[..|s| - 1]) else s
  }

  /** Python's `s.strip("/")`. */
  function Strip(s: string): (r: string)
    ensures r == [] || (r[0] != '/' && r[|r| - 1] != '/')
    ensures (s == [] || (s[0] != '/' && s[|s| - 1] != '/')) ==> r == s
  {
    if s != [] && s[0] == '/' then Strip(s[1..]) else RStrip(s)
  }

  /** Length of the UTF-8 encoding of a character. */
  function Utf8Size(c: char): nat {
    var n := c as int;
    if n < 0x80 then 1 else if n < 0x800 then 2 else if n < 0x10000 then 3 else 4
  }

  /** Length of the UTF-8 encoding of a text. */
  function Utf8Length(s: string): nat {
    if s == [] then 0 else Utf8Size(s[0]) + Utf8Length(s[1..])
  }

  // Python's s.removesuffix("/**"): an expression without its terminal wildcard.
  function RemoveWildcard(s: string): string {
    if |s| >= 3 && s[|s| - 3..] == "/**" then s[..|s| - 3] else s
  }

  lemma {:induction false} SplitOne(s: string)
    requires '/' !in s
    ensures Split(s) == [s]
  {
    if s != [] {
      SplitOne(s[1..]);
      assert s == [s[0]] + s[1..];
    }
  }

  lemma SplitCons(c: char, rest: seq<string>, more: seq<string>)
    requires |rest| >= 1
    ensures var all := rest + more;
            && [[c] + all[0]] + all[1..] == [[c] + rest[0]] + rest[1..] + more
            && [[]] + all == [[]] + rest + more
  {}

  lemma {:induction false} SplitAppend(a: string, b: string)
    ensures Split(a + "/" + b) == Split(a) + Split(b)
  {
    var all := a + "/" + b;
    if a == [] {
      assert all[0] == '/' && all[1..] == b;
      assert Split(all) == [[]] + Split(b);
    } else {
      SplitAppend(a[1..], b);
      assert all[0] == a[0] && all[1..] == a[1..] + "/" + b;
      SplitCons(a[0], Split(a[1..]), Split(b));
    }
  }
}
