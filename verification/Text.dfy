/** String operations of the Python standard library that the models share. */
module Text {
  import opened Wrappers

  // ---------------------------------------------------------------- split and join

  /** `s.split(c)`: always at least one part. */
  function Split(s: string, c: char): (parts: seq<string>)
    ensures |parts| >= 1
  {
    if s == "" then [""] else SplitMore(s[0], Split(s[1..], c), c)
  }

  function SplitMore(first: char, rest: seq<string>, c: char): (parts: seq<string>)
    requires |rest| >= 1
    ensures |parts| >= 1
  {
    if first == c then [""] + rest else [[first] + rest[0]] + rest[1..]
  }

  /** `separator.join(parts)`. */
  function Join(separator: string, parts: seq<string>): string {
    if parts == [] then ""
    else if |parts| == 1 then parts[0]
    else parts[0] + separator + Join(separator, parts[1..])
  }

  lemma {:induction false} SplitAppend(a: string, c: char, b: string)
    ensures Split(a + [c] + b, c) == Split(a, c) + Split(b, c)
  {
    if a == "" {
      assert a + [c] + b == [c] + b;
      assert ([c] + b)[1..] == b;
      assert Split([c] + b, c) == [""] + Split(b, c);
    } else {
      assert a + [c] + b == [a[0]] + (a[1..] + [c] + b);
      assert ([a[0]] + (a[1..] + [c] + b))[1..] == a[1..] + [c] + b;
      SplitAppend(a[1..], c, b);
      SplitMoreAppend(a[0], Split(a[1..], c), Split(b, c), c);
    }
  }

  lemma SplitMoreAppend(first: char, a: seq<string>, b: seq<string>, c: char)
    requires |a| >= 1
    ensures SplitMore(first, a + b, c) == SplitMore(first, a, c) + b
  {
  }

  lemma {:induction false} SplitWhole(s: string, c: char)
    requires c !in s
    ensures Split(s, c) == [s]
  {
    if s != "" {
      SplitWhole(s[1..], c);
      assert s == [s[0]] + s[1..] && s[0] in s;
    }
  }

  lemma {:induction false} SplitHasNone(s: string, c: char)
    ensures forall part | part in Split(s, c) :: c !in part
  {
    if s != "" {
      SplitHasNone(s[1..], c);
      var rest := Split(s[1..], c);
      assert rest[0] in rest;
      assert forall part | part in rest[1..] :: part in rest;
    }
  }

  lemma {:induction false} JoinSplit(s: string, c: char)
    ensures Join([c], Split(s, c)) == s
  {
    if s != "" {
      JoinSplit(s[1..], c);
      var rest := Split(s[1..], c);
      if s[0] != c {
        JoinFirst([c], s[0], rest);
      }
      assert s == [s[0]] + s[1..];
    }
  }

  lemma JoinFirst(separator: string, first: char, parts: seq<string>)
    requires parts != []
    ensures Join(separator, [[first] + parts[0]] + parts[1..]) == [first] + Join(separator, parts)
  {
    if |parts| > 1 {
      assert ([[first] + parts[0]] + parts[1..])[1..] == parts[1..];
    }
  }

  lemma {:induction false} SplitJoin(parts: seq<string>, c: char)
    requires parts != [] && forall part | part in parts :: c !in part
    ensures Split(Join([c], parts), c) == parts
  {
    SplitWhole(parts[0], c);
    if |parts| > 1 {
      SplitJoin(parts[1..], c);
      SplitAppend(parts[0], c, Join([c], parts[1..]));
      assert parts == [parts[0]] + parts[1..];
    }
  }

  // ---------------------------------------------------------------- path components

  /** The components `PurePosixPath` keeps: neither empty nor `.`. */
  function Kept(parts: seq<string>): seq<string> {
    if parts == [] then []
    else if parts[0] == "" || parts[0] == "." then Kept(parts[1..])
    else [parts[0]] + Kept(parts[1..])
  }

  function Components(s: string): seq<string> {
    Kept(Split(s, '/'))
  }

  predicate IsAbsolute(s: string) {
    s != "" && s[0] == '/'
  }

  lemma {:induction false} KeptAppend(a: seq<string>, b: seq<string>)
    ensures Kept(a + b) == Kept(a) + Kept(b)
  {
    if a == [] {
      assert a + b == b;
    } else {
      assert (a + b)[1..] == a[1..] + b;
      KeptAppend(a[1..], b);
    }
  }

  lemma ComponentsAppend(a: string, b: string)
    ensures Components(a + "/" + b) == Components(a) + Components(b)
  {
    SplitAppend(a, '/', b);
    KeptAppend(Split(a, '/'), Split(b, '/'));
  }

  // ---------------------------------------------------------------- characters

  /** The characters for which Python's `str.isspace` holds. */
  predicate IsSpace(c: char) {
    || '\t' <= c <= '\r'
    || '\U{1c}' <= c <= ' '
    || c == '\U{85}' || c == '\U{a0}' || c == '\U{1680}'
    || '\U{2000}' <= c <= '\U{200a}'
    || c == '\U{2028}' || c == '\U{2029}' || c == '\U{202f}' || c == '\U{205f}' || c == '\U{3000}'
  }

  /** `str.lower`, which differs from this on no text compared here. */
  function Lower(s: string): string {
    if s == "" then "" else [if 'A' <= s[0] <= 'Z' then s[0] - 'A' + 'a' else s[0]] + Lower(s[1..])
  }

  /** Each capital letter becomes its small one, and nothing else changes. */
  lemma {:induction false} LowerAt(s: string, i: nat)
    requires i < |s|
    ensures |Lower(s)| == |s|
    ensures Lower(s)[i] == if 'A' <= s[i] <= 'Z' then ((s[i] as int) + 32) as char else s[i]
  {
    if |s| > 1 {
      LowerAt(s[1..], if i == 0 then 0 else i - 1);
    }
  }

  // ---------------------------------------------------------------- search and replace

  predicate Contains(s: string, pattern: string) {
    pattern <= s || (s != "" && Contains(s[1..], pattern))
  }

  /** `s.replace(pattern, with)`: every occurrence, from the left, without overlap. */
  function Replace(s: string, pattern: string, with: string): string
    requires pattern != ""
    decreases |s|
  {
    if s == "" then ""
    else if pattern <= s then with + Replace(s[|pattern|..], pattern, with)
    else [s[0]] + Replace(s[1..], pattern, with)
  }

  // ---------------------------------------------------------------- decimal numbers

  predicate IsDigit(c: char) {
    '0' <= c <= '9'
  }

  function Decimal(n: nat): (s: string)
    ensures s != "" && forall c | c in s :: IsDigit(c)
  {
    if n < 10 then ['0' + n as char] else Decimal(n / 10) + ['0' + (n % 10) as char]
  }

  function StripLeft(s: string): string {
    if s != "" && IsSpace(s[0]) then StripLeft(s[1..]) else s
  }

  function StripRight(s: string): string {
    if s != "" && IsSpace(s[|s| - 1]) then StripRight(s[..|s| - 1]) else s
  }

  /** Digits, with single underscores between them, read onto `value`. */
  function Digits(s: string, value: nat, afterDigit: bool): Option<nat>
    decreases s
  {
    if s == "" then (if afterDigit then Some(value) else None)
    else if IsDigit(s[0]) then Digits(s[1..], 10 * value + (s[0] as int - '0' as int), true)
    else if s[0] == '_' && afterDigit then Digits(s[1..], value, false)
    else None
  }

  /** `int(s)`, None where it raises. */
  function ParseInt(s: string): Option<int> {
    var t := StripRight(StripLeft(s));
    var signed := t != "" && (t[0] == '-' || t[0] == '+');
    var digits := Digits(if signed then t[1..] else t, 0, false);
    if digits.None? then None else Some(if signed && t[0] == '-' then 0 - digits.value else digits.value)
  }

  lemma {:induction false} DigitsOfDecimal(n: nat, rest: string)
    ensures Digits(Decimal(n) + rest, 0, false) == Digits(rest, n, true)
    decreases n
  {
    if n < 10 {
      assert (Decimal(n) + rest)[1..] == rest;
    } else {
      var last := '0' + (n % 10) as char;
      assert Decimal(n) + rest == Decimal(n / 10) + ([last] + rest);
      DigitsOfDecimal(n / 10, [last] + rest);
      assert ([last] + rest)[1..] == rest;
    }
  }

  /** Reading a printed number gives it back; so no two numbers print alike. */
  lemma ParseDecimal(n: nat)
    ensures ParseInt(Decimal(n)) == Some(n)
  {
    var s := Decimal(n);
    assert s[0] in s && s[|s| - 1] in s;
    assert StripRight(StripLeft(s)) == s;
    assert s + "" == s;
    DigitsOfDecimal(n, "");
  }
}
