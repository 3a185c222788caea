/** Expansion of a ChrootDirectory (`_expand_chroot` of collectors/mounts.py). */
module SshdChroot {
  import opened Wrappers
  import opened Text

  const MARKER := "\0PERCENT\0"

  /** The four replacements of the program, one after the other. */
  function ReplaceTokens(value: string, user: string, home: string): string {
    Replace(Replace(Replace(Replace(value, "%%", MARKER), "%u", user), "%h", home), MARKER, "%")
  }

  /** The directory as components below `/`, or None when nothing is exported. */
  function ExpandChroot(value: string, user: string, home: Option<string>): Option<seq<string>> {
    var known := if home.Some? then home.value else "";
    if Lower(value) == "none" then None
    else if Contains(value, "%h") && known == "" then None
    else
      var expanded := ReplaceTokens(value, user, known);
      if IsAbsolute(expanded) then Some(Components(expanded)) else None
  }

  // ---------------------------------------------------------------- one pass

  /** One pass from the left over the tokens `%%`, `%u` and `%h`. */
  function Pass(value: string, percent: string, user: string, home: string): string {
    if value == "" then ""
    else if "%%" <= value then percent + Pass(value[2..], percent, user, home)
    else if "%u" <= value then user + Pass(value[2..], percent, user, home)
    else if "%h" <= value then home + Pass(value[2..], percent, user, home)
    else [value[0]] + Pass(value[1..], percent, user, home)
  }

  function Expand(value: string, user: string, home: string): string {
    Pass(value, "%", user, home)
  }

  // ---------------------------------------------------------------- sshd_config(5)

  predicate BeginsToken(value: string) {
    "%%" <= value || "%u" <= value || "%h" <= value || "%U" <= value
  }

  /** Every percent sign belongs to a token. */
  predicate WellFormed(value: string)
    decreases |value|
  {
    value == "" ||
    if BeginsToken(value) then WellFormed(value[2..]) else value[0] != '%' && WellFormed(value[1..])
  }

  /** Some token of the value is `token`. */
  predicate Names(value: string, token: string)
    decreases |value|
  {
    value != "" &&
    if BeginsToken(value) then token <= value || Names(value[2..], token) else Names(value[1..], token)
  }

  /** One pass over the tokens that the TOKENS section of sshd_config(5) gives ChrootDirectory. */
  function ExpandAll(value: string, user: string, uid: string, home: string): string
    decreases |value|
  {
    if value == "" then ""
    else if "%%" <= value then "%" + ExpandAll(value[2..], user, uid, home)
    else if "%u" <= value then user + ExpandAll(value[2..], user, uid, home)
    else if "%h" <= value then home + ExpandAll(value[2..], user, uid, home)
    else if "%U" <= value then uid + ExpandAll(value[2..], user, uid, home)
    else [value[0]] + ExpandAll(value[1..], user, uid, home)
  }

  /** What sshd_config(5) specifies: tokens are expanded in one pass, a malformed value is refused,
      and only a value that names an unknown home directory cannot be expanded. */
  function Specified(value: string, user: string, uid: nat, home: Option<string>): Option<seq<string>> {
    if Lower(value) == "none" || !WellFormed(value) then None
    else if Names(value, "%h") && home.None? then None
    else
      var expanded := ExpandAll(value, user, Decimal(uid), if home.Some? then home.value else "");
      if IsAbsolute(expanded) then Some(Components(expanded)) else None
  }

  // ---------------------------------------------------------------- replacing, token by token

  /** Wherever `x` stands, replacing turns it into `y` and goes on behind it. */
  ghost predicate Turns(x: string, y: string, pattern: string, with: string)
    requires pattern != ""
  {
    forall rest: string :: Replace(x + rest, pattern, with) == y + Replace(rest, pattern, with)
  }

  /** `c` is no token's beginning in front of `rest`. */
  predicate IsLiteral(c: char, rest: string) {
    c != '\0' && (c != '%' || rest == "" || (rest[0] != '%' && rest[0] != 'u' && rest[0] != 'h'))
  }

  /** No occurrence begins at a literal character. */
  ghost predicate SparesLiterals(pattern: string) {
    forall c: char, rest: string :: IsLiteral(c, rest) ==> !(pattern <= [c] + rest)
  }

  lemma {:induction false} Skipped(x: string, rest: string, pattern: string, with: string)
    requires pattern != "" && pattern[0] !in x
    ensures Replace(x + rest, pattern, with) == x + Replace(rest, pattern, with)
    decreases x
  {
    if x == "" {
      assert x + rest == rest;
    } else {
      assert x[0] in x && (x + rest)[0] == x[0];
      assert (x + rest)[1..] == x[1..] + rest;
      Skipped(x[1..], rest, pattern, with);
    }
  }

  lemma Skips(x: string, pattern: string, with: string)
    requires pattern != "" && pattern[0] !in x
    ensures Turns(x, x, pattern, with)
  {
    forall rest: string ensures Replace(x + rest, pattern, with) == x + Replace(rest, pattern, with) {
      Skipped(x, rest, pattern, with);
    }
  }

  lemma Hits(pattern: string, with: string)
    requires pattern != ""
    ensures Turns(pattern, with, pattern, with)
  {
    forall rest: string ensures Replace(pattern + rest, pattern, with) == with + Replace(rest, pattern, with) {
      assert (pattern + rest)[|pattern|..] == rest;
    }
  }

  /** A token other than the one replaced stays. */
  lemma Stays(a: char, b: char, with: string)
    requires a != b && a != '%'
    ensures Turns(['%', a], ['%', a], ['%', b], with)
  {
    forall rest: string
      ensures Replace(['%', a] + rest, ['%', b], with) == ['%', a] + Replace(rest, ['%', b], with)
    {
      var s := ['%', a] + rest;
      assert s[1] == a && s[1..] == [a] + rest && ([a] + rest)[1..] == rest;
      assert !(['%', b] <= s) && !(['%', b] <= [a] + rest);
      assert Replace(s, ['%', b], with) == ['%'] + Replace([a] + rest, ['%', b], with);
      assert Replace([a] + rest, ['%', b], with) == [a] + Replace(rest, ['%', b], with);
      assert ['%'] + ([a] + Replace(rest, ['%', b], with)) == ['%', a] + Replace(rest, ['%', b], with);
    }
  }

  lemma LiteralPercent(b: char)
    requires b == '%' || b == 'u' || b == 'h'
    ensures SparesLiterals(['%', b])
  {
    forall c: char, rest: string | IsLiteral(c, rest) ensures !(['%', b] <= [c] + rest) {
      assert ([c] + rest)[0] == c && (rest != "" ==> ([c] + rest)[1] == rest[0]);
    }
  }

  lemma LiteralStays(value: string, p: string, u: string, h: string)
    requires value != "" && '\0' !in value
    requires !("%%" <= value) && !("%u" <= value) && !("%h" <= value)
    ensures IsLiteral(value[0], Pass(value[1..], p, u, h))
  {
    assert value[0] in value;
    if value[0] == '%' && |value| > 1 {
      assert value[..2] == ['%', value[1]];
      assert value[..2] != "%%" && value[..2] != "%u" && value[..2] != "%h";
      assert value[1..][0] == value[1];
    }
  }

  /** A replacement that treats each token in its own way acts on the tokens of a pass. */
  lemma {:induction false} Stage(value: string, pattern: string, with: string,
                                 p: string, u: string, h: string, p': string, u': string, h': string)
    requires pattern != "" && '\0' !in value && SparesLiterals(pattern)
    requires Turns(p, p', pattern, with) && Turns(u, u', pattern, with) && Turns(h, h', pattern, with)
    ensures Replace(Pass(value, p, u, h), pattern, with) == Pass(value, p', u', h')
    decreases |value|
  {
    if value == "" {
    } else if "%%" <= value || "%u" <= value || "%h" <= value {
      Stage(value[2..], pattern, with, p, u, h, p', u', h');
    } else {
      var rest := Pass(value[1..], p, u, h);
      LiteralStays(value, p, u, h);
      assert !(pattern <= [value[0]] + rest);
      assert ([value[0]] + rest)[1..] == rest;
      Stage(value[1..], pattern, with, p, u, h, p', u', h');
    }
  }

  /** Putting every token back in its place changes nothing. */
  lemma {:induction false} PassBack(value: string)
    ensures Pass(value, "%%", "%u", "%h") == value
    decreases |value|
  {
    if value == "" {
    } else if "%%" <= value || "%u" <= value || "%h" <= value {
      PassBack(value[2..]);
      assert value == value[..2] + value[2..];
    } else {
      PassBack(value[1..]);
      assert value == [value[0]] + value[1..];
    }
  }

  /** The replacements, one after the other, amount to one pass over the tokens. */
  lemma ReplacementsAreOnePass(value: string, user: string, home: string)
    requires '\0' !in value && '\0' !in home
    requires '%' !in user && '\0' !in user
    ensures ReplaceTokens(value, user, home) == Expand(value, user, home)
  {
    PassBack(value);
    LiteralPercent('%');
    LiteralPercent('u');
    LiteralPercent('h');
    Hits("%%", MARKER);
    Stays('u', '%', MARKER);
    Stays('h', '%', MARKER);
    Stage(value, "%%", MARKER, "%%", "%u", "%h", MARKER, "%u", "%h");
    Skips(MARKER, "%u", user);
    Hits("%u", user);
    Stays('h', 'u', user);
    Stage(value, "%u", user, MARKER, "%u", "%h", MARKER, user, "%h");
    Skips(MARKER, "%h", home);
    Skips(user, "%h", home);
    Hits("%h", home);
    Stage(value, "%h", home, MARKER, user, "%h", MARKER, user, home);
    Hits(MARKER, "%");
    Skips(user, MARKER, "%");
    Skips(home, MARKER, "%");
    Stage(value, MARKER, "%", MARKER, user, home, "%", user, home);
  }

  // ---------------------------------------------------------------- the directory

  lemma {:induction false} NamingHomeShows(value: string)
    requires Names(value, "%h")
    ensures Contains(value, "%h")
    decreases |value|
  {
    if !("%h" <= value) {
      if BeginsToken(value) {
        NamingHomeShows(value[2..]);
        assert value[1..][1..] == value[2..];
        assert Contains(value[1..], "%h");
      } else {
        NamingHomeShows(value[1..]);
      }
    }
  }

  lemma {:induction false} SameWithoutUid(value: string, user: string, uid: string, home: string)
    requires WellFormed(value) && !Names(value, "%U")
    ensures ExpandAll(value, user, uid, home) == Expand(value, user, home)
    decreases |value|
  {
    if value != "" {
      SameWithoutUid(value[if BeginsToken(value) then 2 else 1..], user, uid, home);
    }
  }

  /** Up to the first `%U` both expansions agree; there the program leaves the token. */
  lemma {:induction false} FirstUid(value: string, user: string, uid: string, home: string)
    returns (before: string, left: string, specified: string)
    requires WellFormed(value) && Names(value, "%U")
    ensures Expand(value, user, home) == before + ("%U" + left)
    ensures ExpandAll(value, user, uid, home) == before + (uid + specified)
    decreases |value|
  {
    if "%U" <= value {
      assert value[1..][0] == 'U' && value[1..][1..] == value[2..];
      before, left, specified := "", Expand(value[2..], user, home), ExpandAll(value[2..], user, uid, home);
      assert Expand(value[1..], user, home) == "U" + left;
      assert "%" + ("U" + left) == "%U" + left;
    } else {
      before, left, specified := FirstUid(value[if BeginsToken(value) then 2 else 1..], user, uid, home);
      var head :=
        if "%%" <= value then "%" else if "%u" <= value then user else if "%h" <= value then home else [value[0]];
      assert head + (before + ("%U" + left)) == (head + before) + ("%U" + left);
      assert head + (before + (uid + specified)) == (head + before) + (uid + specified);
      before := head + before;
    }
  }

  lemma {:induction false} FirstPart(before: string, c: char, after: string)
    requires '/' !in before && c != '/'
    ensures before + [c] <= Split(before + ([c] + after), '/')[0]
  {
    var s := before + ([c] + after);
    if before != "" {
      assert s[1..] == before[1..] + ([c] + after);
      assert s[0] == before[0] && before[0] in before;
      FirstPart(before[1..], c, after);
      assert before + [c] == [before[0]] + (before[1..] + [c]);
    }
  }

  lemma FirstComponent(before: string, c: char, after: string)
    requires '/' !in before && c != '/' && c != '.'
    ensures Components(before + ([c] + after)) != []
    ensures before + [c] <= Components(before + ([c] + after))[0]
  {
    FirstPart(before, c, after);
    var parts := Split(before + ([c] + after), '/');
    assert parts[0][|before|] == c;
    assert parts[0] != "." && parts[0] != "";
  }

  /** Paths that differ at one place, and not by a slash or a dot there, differ in a component. */
  lemma {:induction false} ComponentsDiffer(before: string, c: char, after: string, c': char, after': string)
    requires c != c' && c != '/' && c != '.' && c' != '/' && c' != '.'
    ensures Components(before + ([c] + after)) != Components(before + ([c'] + after'))
    decreases |before|
  {
    if '/' in before {
      var i :| 0 <= i < |before| && before[i] == '/';
      var a, b := before[..i], before[i + 1..];
      assert before == a + "/" + b;
      assert before + ([c] + after) == a + "/" + (b + ([c] + after));
      assert before + ([c'] + after') == a + "/" + (b + ([c'] + after'));
      ComponentsAppend(a, b + ([c] + after));
      ComponentsAppend(a, b + ([c'] + after'));
      ComponentsDiffer(b, c, after, c', after');
      SamePrefix(Components(a), Components(b + ([c] + after)), Components(b + ([c'] + after')));
    } else {
      FirstComponent(before, c, after);
      FirstComponent(before, c', after');
      assert (before + [c])[|before|] != (before + [c'])[|before|];
    }
  }

  lemma SamePrefix(a: seq<string>, b: seq<string>, c: seq<string>)
    requires b != c
    ensures a + b != a + c
  {
    assert (a + b)[|a|..] == b && (a + c)[|a|..] == c;
  }

  /** Where the value names the user id, nothing absolute comes out the same. */
  lemma UidDiffers(value: string, user: string, uid: nat, home: string)
    requires WellFormed(value) && Names(value, "%U")
    ensures var own, specified := Expand(value, user, home), ExpandAll(value, user, Decimal(uid), home);
            IsAbsolute(own) == IsAbsolute(specified) && Components(own) != Components(specified)
  {
    var before, left, specified := FirstUid(value, user, Decimal(uid), home);
    var id := Decimal(uid);
    assert id[0] in id;
    assert "%U" + left == ['%'] + ("U" + left);
    assert id + specified == [id[0]] + (id[1..] + specified);
    ComponentsDiffer(before, '%', "U" + left, id[0], id[1..] + specified);
  }

  function Known(home: Option<string>): string {
    if home.Some? then home.value else ""
  }

  /** The guard of the program: `%h` shows, and no home directory is known or it is empty. */
  predicate Guarded(value: string, home: Option<string>) {
    Contains(value, "%h") && Known(home) == ""
  }

  /** The case in which sshd_config(5) leaves no directory to tell. */
  predicate Untold(value: string, home: Option<string>) {
    Names(value, "%h") && home.None?
  }

  /** The directory is the specified one exactly when nothing absolute comes out anyway, or: a malformed
      value is stopped by the guard; a value with `%U` also names an unknown home directory; and any
      other value is stopped by the guard only if it names an unknown home directory. */
  lemma ChrootAsSpecified(value: string, user: string, uid: nat, home: Option<string>)
    requires '\0' !in value && (home.Some? ==> '\0' !in home.value)
    requires '%' !in user && '\0' !in user
    ensures ExpandChroot(value, user, home) == Specified(value, user, uid, home)
       <==> || Lower(value) == "none"
            || !IsAbsolute(Expand(value, user, Known(home)))
            || (if !WellFormed(value) then Guarded(value, home)
                else if Names(value, "%U") then Untold(value, home)
                else Guarded(value, home) ==> Untold(value, home))
  {
    ReplacementsAreOnePass(value, user, Known(home));
    if Names(value, "%h") {
      NamingHomeShows(value);
    }
    if WellFormed(value) {
      if Names(value, "%U") {
        UidDiffers(value, user, uid, Known(home));
      } else {
        SameWithoutUid(value, user, Decimal(uid), Known(home));
      }
    }
  }

  // ---------------------------------------------------------------- where they differ

  lemma OneComponent(name: string)
    requires '/' !in name && name != "" && name != "."
    ensures Components("/" + name) == [name]
  {
    ComponentsAppend("", name);
    SplitWhole(name, '/');
    assert "" + "/" + name == "/" + name;
    assert Kept([name]) == [name] + Kept([]);
  }

  lemma NotNone(value: string)
    requires "/" <= value
    ensures Lower(value) != "none"
  {
    assert Lower(value)[0] == '/';
  }

  /** The program leaves a percent sign that begins none of its tokens. */
  lemma LiteralToken(c: char, user: string, home: string)
    requires c != '%' && c != 'u' && c != 'h'
    ensures Expand(['/', '%', c], user, home) == ['/', '%', c]
  {
    var a: string, b: string, value: string := [c], ['%', c], ['/', '%', c];
    assert a[1..] == "" && b[1..] == a && value[1..] == b;
    assert a == [a[0]] + a[1..] && b == [b[0]] + b[1..] && value == [value[0]] + value[1..];
    assert b[1] == c && Pass(a[1..], "%", user, home) == "";
    assert Pass(a, "%", user, home) == [a[0]] + "" == a;
    assert Pass(b, "%", user, home) == ['%'] + a == b;
    assert Pass(value, "%", user, home) == ['/'] + b == value;
  }

  /** `/%%h` names no home directory, but without one it is not exported. */
  lemma EscapedPercentIsMistaken(user: string, uid: nat)
    ensures ExpandChroot("/%%h", user, None) == None
    ensures Specified("/%%h", user, uid, None) == Some(["%h"])
  {
    var value := "/%%h";
    NotNone(value);
    assert value[1..] == "%%h" && "%%h"[1..] == "%h" && "%%h"[2..] == "h" && "h"[1..] == "";
    assert Contains("%%h", "%h");
    assert !Names("h", "%h") && !Names("%%h", "%h");
    assert ExpandAll("h", user, Decimal(uid), "") == "h";
    assert ExpandAll("%%h", user, Decimal(uid), "") == "%" + "h" == "%h";
    assert ExpandAll(value, user, Decimal(uid), "") == "/" + "%h";
    OneComponent("%h");
  }

  /** `/%U` is left as it stands, in place of the user id. */
  lemma UidTokenIsMissed(user: string, uid: nat, home: Option<string>)
    requires '%' !in user && '\0' !in user && (home.Some? ==> '\0' !in home.value)
    ensures ExpandChroot("/%U", user, home) == Some(["%U"])
    ensures Specified("/%U", user, uid, home) == Some([Decimal(uid)])
  {
    var value, id := "/%U", Decimal(uid);
    NotNone(value);
    ReplacementsAreOnePass(value, user, Known(home));
    assert value[1..] == "%U" && "%U"[1..] == "U" && "%U"[2..] == "" && "U"[1..] == "";
    assert !Contains("U", "%h") && !Contains("%U", "%h");
    LiteralToken('U', user, Known(home));
    OneComponent("%U");
    assert !Names("%U", "%h");
    assert ExpandAll("%U", user, id, Known(home)) == id + "" == id;
    assert ExpandAll(value, user, id, Known(home)) == "/" + id;
    assert id[0] in id;
    OneComponent(id);
  }

  /** `/%x` is exported, although `%x` is no token. */
  lemma UnknownTokenIsKept(user: string, uid: nat, home: Option<string>)
    requires '%' !in user && '\0' !in user && (home.Some? ==> '\0' !in home.value)
    ensures ExpandChroot("/%x", user, home) == Some(["%x"])
    ensures Specified("/%x", user, uid, home) == None
  {
    var value := "/%x";
    NotNone(value);
    ReplacementsAreOnePass(value, user, Known(home));
    assert value[1..] == "%x" && "%x"[1..] == "x" && "x"[1..] == "";
    assert !Contains("x", "%h") && !Contains("%x", "%h");
    LiteralToken('x', user, Known(home));
    OneComponent("%x");
  }

  /** With an empty home directory `/%h` is the root, but it is not exported. */
  lemma EmptyHomeIsMistaken(user: string, uid: nat)
    ensures ExpandChroot("/%h", user, Some("")) == None
    ensures Specified("/%h", user, uid, Some("")) == Some([])
  {
    var value := "/%h";
    NotNone(value);
    assert value[1..] == "%h" && "%h"[2..] == "";
    assert Contains("%h", "%h");
    assert ExpandAll("%h", user, Decimal(uid), "") == "" + "" == "";
    assert ExpandAll(value, user, Decimal(uid), "") == "/" + "";
    ComponentsAppend("", "");
    assert "" + "/" + "" == "/";
  }
}
