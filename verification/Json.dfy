/** Texts as Python's `json.dumps` writes them, and how much longer they get by that. */
module Json {
  import opened Text

  function HexDigit(n: nat): char
    requires n < 16
  {
    "0123456789abcdef"[n]
  }

  function UnicodeEscape(n: nat): (r: string)
    requires n < 0x10000
    ensures |r| == 6
  {
    "\\u" + [HexDigit(n / 0x1000), HexDigit(n / 0x100 % 16), HexDigit(n / 16 % 16), HexDigit(n % 16)]
  }

  /** A character inside a string: printable ASCII stays, the rest is escaped, in two units
      beyond the basic plane. */
  function Escaped(c: char): (r: string)
    ensures |r| >= Utf8Size(c)
  {
    var n := c as int;
    if c == '"' then "\\\""
    else if c == '\\' then "\\\\"
    else if n == 8 then "\\b" else if n == 9 then "\\t" else if n == 10 then "\\n"
    else if n == 12 then "\\f" else if n == 13 then "\\r"
    else if 0x20 <= n < 0x7F then [c]
    else if n < 0x10000 then UnicodeEscape(n)
    else UnicodeEscape(0xD800 + (n - 0x10000) / 0x400) + UnicodeEscape(0xDC00 + (n - 0x10000) % 0x400)
  }

  function JsonText(s: string): string {
    if s == [] then [] else Escaped(s[0]) + JsonText(s[1..])
  }

  /** By how much escaping makes a text longer than its UTF-8 encoding. */
  function Excess(s: string): nat {
    if s == [] then 0 else |Escaped(s[0])| - Utf8Size(s[0]) + Excess(s[1..])
  }

  lemma {:induction false} JsonTextLength(s: string)
    ensures |JsonText(s)| == Utf8Length(s) + Excess(s)
  {
    hide Escaped, Utf8Size;
    if s != [] {
      JsonTextLength(s[1..]);
    }
  }

  lemma {:induction false} ExcessAppend(a: string, b: string)
    ensures Excess(a + b) == Excess(a) + Excess(b)
  {
    hide Escaped;
    if a == [] {
      assert a + b == b;
    } else {
      ExcessAppend(a[1..], b);
      assert (a + b)[0] == a[0] && (a + b)[1..] == a[1..] + b;
    }
  }

  lemma {:induction false} JsonTextAppend(a: string, b: string)
    ensures JsonText(a + b) == JsonText(a) + JsonText(b)
  {
    hide Escaped;
    if a == [] {
      assert a + b == b;
    } else {
      JsonTextAppend(a[1..], b);
      assert (a + b)[0] == a[0] && (a + b)[1..] == a[1..] + b;
      Regroup(Escaped(a[0]), JsonText(a[1..]), JsonText(b));
    }
  }

  lemma Regroup(a: string, b: string, c: string)
    ensures a + (b + c) == (a + b) + c
  {}

  /** A character that is written as it is. */
  predicate Plain(c: char) {
    0x20 <= c as int < 0x7F && c != '"' && c != '\\'
  }

  lemma {:induction false} PlainIsKept(s: string)
    requires forall c | c in s :: Plain(c)
    ensures JsonText(s) == s && Excess(s) == 0 && Utf8Length(s) == |s|
  {
    if s != [] {
      assert s[0] in s;
      PlainIsKept(s[1..]);
      assert s == [s[0]] + s[1..];
    }
  }

  /** A number in decimal digits. */
  function Decimal(n: nat): (r: string)
    ensures |r| >= 1 && forall c | c in r :: '0' <= c <= '9'
  {
    var last := "0123456789"[n % 10];
    if n < 10 then [last] else Decimal(n / 10) + [last]
  }

  function PowerOfTen(k: nat): nat {
    if k == 0 then 1 else 10 * PowerOfTen(k - 1)
  }

  lemma {:induction false} DecimalLength(n: nat, k: nat)
    requires k >= 1 && n < PowerOfTen(k)
    ensures |Decimal(n)| <= k
  {
    if n >= 10 {
      assert k > 1;
      DecimalLength(n / 10, k - 1);
    }
  }

  function Quoted(s: string): (r: string)
    ensures |r| == |JsonText(s)| + 2
  {
    "\"" + JsonText(s) + "\""
  }

  /** A list of strings; `gap` is what follows each separator. */
  function Strings(items: seq<string>, gap: string): string {
    if items == [] then ""
    else if |items| == 1 then Quoted(items[0])
    else Quoted(items[0]) + ("," + gap + Strings(items[1..], gap))
  }

  lemma {:induction false} StringsLength(items: seq<string>, gap: string, most: nat)
    requires |gap| <= 1 && forall s | s in items :: |JsonText(s)| <= most
    ensures |Strings(items, gap)| <= |items| * (most + 4)
  {
    hide JsonText, Quoted;
    if items != [] {
      assert items[0] in items;
      if |items| > 1 {
        StringsLength(items[1..], gap, most);
      }
      OneItemMore(|items|, most + 4);
    }
  }

  lemma OneItemMore(n: nat, room: nat)
    requires n > 0
    ensures n * room == room + (n - 1) * room && (n - 1) * room >= 0
  {}
}
