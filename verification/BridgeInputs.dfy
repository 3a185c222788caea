/** Which bridge inputs are accepted (`validate_bridge_input` of services/bridges.py), by the regular
    expressions of the program. */
module BridgeInputs {
  import opened Wrappers
  import opened BridgeServices

  /** Regular expressions, as far as the program uses them. */
  datatype Regex =
    | Chars(allowed: char -> bool, least: nat, most: nat)
    | Then(first: Regex, second: Regex)
    | Maybe(inner: Regex)

  /** `fullmatch`. */
  ghost predicate Matches(r: Regex, s: string) {
    match r
    case Chars(allowed, least, most) => least <= |s| <= most && forall c | c in s :: allowed(c)
    case Then(first, second) => exists k | 0 <= k <= |s| :: Matches(first, s[..k]) && Matches(second, s[k..])
    case Maybe(inner) => s == "" || Matches(inner, s)
  }

  predicate InRanges(c: char) {
    'A' <= c <= 'Z' || 'a' <= c <= 'z' || '0' <= c <= '9'
  }

  function AlphaNumeric(): char -> bool {
    c => InRanges(c)
  }

  function DnsCharacter(): char -> bool {
    c => InRanges(c) || c == '.' || c == '-'
  }

  function NameCharacter(): char -> bool {
    c => InRanges(c) || c == '_' || c == '.' || c == '-'
  }

  /** `[A-Za-z0-9][A-Za-z0-9_.-]{0,119}`. */
  function ServiceNameRegex(): Regex {
    Then(Chars(AlphaNumeric(), 1, 1), Chars(NameCharacter(), 0, 119))
  }

  /** `[A-Za-z0-9](?:[A-Za-z0-9.-]{0,251}[A-Za-z0-9])?`. */
  function DnsNameRegex(): Regex {
    Then(Chars(AlphaNumeric(), 1, 1),
         Maybe(Then(Chars(DnsCharacter(), 0, 251), Chars(AlphaNumeric(), 1, 1))))
  }

  lemma ThenSplits(first: Regex, second: Regex, s: string) returns (k: nat)
    requires Matches(Then(first, second), s)
    ensures k <= |s| && Matches(first, s[..k]) && Matches(second, s[k..])
  {
    k :| 0 <= k <= |s| && Matches(first, s[..k]) && Matches(second, s[k..]);
  }

  lemma ThenJoins(first: Regex, second: Regex, s: string, k: nat)
    requires k <= |s| && Matches(first, s[..k]) && Matches(second, s[k..])
    ensures Matches(Then(first, second), s)
  {
  }

  lemma OneCharacter(allowed: char -> bool, s: string)
    ensures Matches(Chars(allowed, 1, 1), s) <==> |s| == 1 && allowed(s[0])
  {
    if |s| == 1 {
      assert s == [s[0]];
    }
  }

  lemma ServiceNameExactly(s: string)
    ensures IsServiceName(s) <==> Matches(ServiceNameRegex(), s)
  {
    var first, rest := Chars(AlphaNumeric(), 1, 1), Chars(NameCharacter(), 0, 119);
    if IsServiceName(s) {
      OneCharacter(AlphaNumeric(), s[..1]);
      forall c | c in s[1..] ensures NameCharacter()(c) {
        assert c in s;
      }
      ThenJoins(first, rest, s, 1);
    }
    if Matches(ServiceNameRegex(), s) {
      var k := ThenSplits(first, rest, s);
      OneCharacter(AlphaNumeric(), s[..k]);
      assert s == [s[0]] + s[1..];
    }
  }

  lemma DnsTail(s: string)
    ensures Matches(Then(Chars(DnsCharacter(), 0, 251), Chars(AlphaNumeric(), 1, 1)), s) <==>
            1 <= |s| <= 252 && IsAlnum(s[|s| - 1]) && forall c | c in s :: DnsCharacter()(c)
  {
    var some, one := Chars(DnsCharacter(), 0, 251), Chars(AlphaNumeric(), 1, 1);
    if Matches(Then(some, one), s) {
      var k := ThenSplits(some, one, s);
      OneCharacter(AlphaNumeric(), s[k..]);
      assert s == s[..k] + [s[k]];
    }
    if 1 <= |s| <= 252 && IsAlnum(s[|s| - 1]) && forall c | c in s :: DnsCharacter()(c) {
      var k := |s| - 1;
      OneCharacter(AlphaNumeric(), s[k..]);
      forall c | c in s[..k] ensures DnsCharacter()(c) {
        assert c in s;
      }
      ThenJoins(some, one, s, k);
    }
  }

  lemma DnsNameExactly(s: string)
    ensures IsDnsName(s) <==> Matches(DnsNameRegex(), s)
  {
    var one := Chars(AlphaNumeric(), 1, 1);
    var tail := Then(Chars(DnsCharacter(), 0, 251), one);
    if IsDnsName(s) {
      OneCharacter(AlphaNumeric(), s[..1]);
      DnsTail(s[1..]);
      forall c | c in s[1..] ensures DnsCharacter()(c) {
        assert c in s;
      }
      assert Matches(Maybe(tail), s[1..]);
      ThenJoins(one, Maybe(tail), s, 1);
    }
    if Matches(DnsNameRegex(), s) {
      var k := ThenSplits(one, Maybe(tail), s);
      OneCharacter(AlphaNumeric(), s[..k]);
      DnsTail(s[1..]);
      assert s == [s[0]] + s[1..];
    }
  }

  /** An input is accepted exactly when its name and, unless it is an IPv4 address, its host match the
      program's expressions, the host is no IPv6 address, and both ports are from 1 to 65535. */
  lemma AcceptedExactly(ip: IpParser, v: BridgeInput)
    ensures ValidateInput(ip, v) == None <==>
            && Matches(ServiceNameRegex(), v.name)
            && 1 <= v.listenPort <= 65535 && 1 <= v.targetPort <= 65535
            && ip(v.targetHost) != V6
            && (ip(v.targetHost) == V4 || Matches(DnsNameRegex(), v.targetHost))
  {
    ServiceNameExactly(v.name);
    DnsNameExactly(v.targetHost);
  }

  /** Of an input with an accepted name and ports, the host decides: IPv6 is refused as such, and what is
      no address must look like a host name. */
  lemma HostDecides(ip: IpParser, v: BridgeInput)
    requires Matches(ServiceNameRegex(), v.name) && 1 <= v.listenPort <= 65535 && 1 <= v.targetPort <= 65535
    ensures ValidateInput(ip, v) == Some(NotIpv4) <==> ip(v.targetHost) == V6
    ensures ValidateInput(ip, v) == Some(BadHost)
       <==> ip(v.targetHost) == NotAnAddress && !Matches(DnsNameRegex(), v.targetHost)
  {
    ServiceNameExactly(v.name);
    DnsNameExactly(v.targetHost);
  }
}
