/** Bridge definitions as compose services (`validate_bridge_input`, `_standard_service` and
    `_parse_service` of services/bridges.py). */
module BridgeServices {
  import opened Wrappers
  import opened Text

  /** A YAML value; `Other` is a scalar that prints as `shown`. */
  datatype Yaml =
    | Null
    | Str(text: string)
    | Number(number: int)
    | Other(shown: string)
    | Items(items: seq<Yaml>)
    | Fields(fields: seq<(string, Yaml)>)

  function PrintInt(n: int): string {
    if n < 0 then "-" + Decimal(-n) else Decimal(n)
  }

  /** `str(value)`; a collection prints as something that is no number, host or port. */
  function Shown(y: Yaml): string {
    match y
    case Null => "None"
    case Str(text) => text
    case Number(n) => PrintInt(n)
    case Other(shown) => shown
    case Items(_) => "[]"
    case Fields(_) => "{}"
  }

  /** `fields.get(key)`. */
  function Get(fields: seq<(string, Yaml)>, key: string): Yaml {
    if fields == [] then Null
    else if fields[0].0 == key then fields[0].1
    else Get(fields[1..], key)
  }

  function Keys(fields: seq<(string, Yaml)>): set<string> {
    set f | f in fields :: f.0
  }

  // ---------------------------------------------------------------- input

  datatype BridgeInput = BridgeInput(name: string, listenPort: int, targetHost: string, targetPort: int)

  datatype IpVersion = NotAnAddress | V4 | V6

  /** `ip_address`, as far as it is used here; it takes no empty text. */
  type IpParser = parse: string -> IpVersion | parse("") == NotAnAddress
    witness (_ => NotAnAddress)

  datatype InputError = BadName | BadPort | NotIpv4 | BadHost

  predicate IsAlnum(c: char) {
    'A' <= c <= 'Z' || 'a' <= c <= 'z' || '0' <= c <= '9'
  }

  predicate IsServiceName(s: string) {
    && 1 <= |s| <= 120
    && IsAlnum(s[0])
    && forall c | c in s :: IsAlnum(c) || c == '_' || c == '.' || c == '-'
  }

  predicate IsDnsName(s: string) {
    && 1 <= |s| <= 253
    && IsAlnum(s[0]) && IsAlnum(s[|s| - 1])
    && forall c | c in s :: IsAlnum(c) || c == '.' || c == '-'
  }

  predicate IsPort(n: int) {
    1 <= n <= 65535
  }

  function ValidateInput(ip: IpParser, v: BridgeInput): Option<InputError> {
    if !IsServiceName(v.name) then Some(BadName)
    else if !IsPort(v.listenPort) || !IsPort(v.targetPort) then Some(BadPort)
    else if ip(v.targetHost) == V6 then Some(NotIpv4)
    else if ip(v.targetHost) == NotAnAddress && !IsDnsName(v.targetHost) then Some(BadHost)
    else None
  }

  // ---------------------------------------------------------------- services

  const IMAGE := "socat-bridge:latest"

  const MANAGED_KEYS := {"build", "image", "container_name", "restart", "ports", "environment"}

  const ENV_KEYS := {"LISTEN_PORT", "TARGET_HOST", "TARGET_PORT"}

  function Published(port: int): string {
    PrintInt(port) + ":" + PrintInt(port)
  }

  function StandardEnvironment(v: BridgeInput): seq<(string, Yaml)> {
    [("LISTEN_PORT", Str(PrintInt(v.listenPort))),
     ("TARGET_HOST", Str(v.targetHost)),
     ("TARGET_PORT", Str(PrintInt(v.targetPort)))]
  }

  function StandardFields(v: BridgeInput): seq<(string, Yaml)> {
    [("build", Str(".")),
     ("image", Str(IMAGE)),
     ("container_name", Str(v.name)),
     ("restart", Str("unless-stopped")),
     ("ports", Items([Str(Published(v.listenPort))])),
     ("environment", Fields(StandardEnvironment(v)))]
  }

  function StandardService(v: BridgeInput): Yaml {
    Fields(StandardFields(v))
  }

  type Environment = map<string, string>

  function EnvironmentOfFields(fields: seq<(string, Yaml)>): Environment {
    if fields == [] then map[]
    else
      (if fields[0].1.Null? then map[] else map[fields[0].0 := Shown(fields[0].1)])
      + EnvironmentOfFields(fields[1..])
  }

  function EnvironmentOfItems(items: seq<Yaml>): Environment {
    if items == [] then map[]
    else (if items[0].Str? && '=' in items[0].text then Assignment(items[0].text) else map[])
         + EnvironmentOfItems(items[1..])
  }

  /** `key, value = item.split("=", 1)`. */
  function Assignment(item: string): Environment {
    var parts := Split(item, '=');
    map[parts[0] := Join("=", parts[1..])]
  }

  function EnvironmentOf(raw: Yaml): Environment {
    match raw
    case Fields(fields) => EnvironmentOfFields(fields)
    case Items(items) => EnvironmentOfItems(items)
    case _ => map[]
  }

  function Lookup(environment: Environment, key: string): Option<string> {
    if key in environment then Some(environment[key]) else None
  }

  function PortOf(value: Option<string>): (r: Option<int>)
    ensures r.Some? ==> IsPort(r.value)
  {
    if value.None? then None
    else
      var parsed := ParseInt(value.value);
      if parsed.Some? && IsPort(parsed.value) then parsed else None
  }

  datatype Issue =
    | NotAMapping
    | UnsupportedKeys(keys: set<string>)
    | WrongImage
    | WrongBuild
    | WrongContainerName
    | WrongRestart
    | WrongEnvironment
    | InvalidBridge
    | NotPublished(port: int)
    | InvalidInput(error: InputError)

  datatype BridgeDefinition = BridgeDefinition(
    name: string,
    listenPort: Option<int>,
    targetHost: Option<string>,
    targetPort: Option<int>,
    issues: seq<Issue>)
  {
    predicate Managed() { issues == [] }
  }

  /** One more entry in front of a list of issues, under a condition. */
  function Note(condition: bool, issue: Issue, more: seq<Issue>): (r: seq<Issue>)
    ensures r == [] <==> !condition && more == []
  {
    if condition then [issue] + more else more
  }

  function ParseService(ip: IpParser, name: string, raw: Yaml): BridgeDefinition {
    if !raw.Fields? then BridgeDefinition(name, None, None, None, [NotAMapping])
    else
      var fields := raw.fields;
      var environment := EnvironmentOf(Get(fields, "environment"));
      var listenPort := PortOf(Lookup(environment, "LISTEN_PORT"));
      var targetHost := Lookup(environment, "TARGET_HOST");
      var targetPort := PortOf(Lookup(environment, "TARGET_PORT"));
      var complete := listenPort.Some? && targetPort.Some? && targetHost.Some? && targetHost.value != "";
      var shape :=
        Note(Keys(fields) - MANAGED_KEYS != {}, UnsupportedKeys(Keys(fields) - MANAGED_KEYS),
        Note(Get(fields, "image") != Str(IMAGE), WrongImage,
        Note(Get(fields, "build") != Str("."), WrongBuild,
        Note(Get(fields, "container_name") != Str(name), WrongContainerName,
        Note(Get(fields, "restart") != Str("unless-stopped"), WrongRestart,
        Note(environment.Keys != ENV_KEYS, WrongEnvironment,
        Note(!complete, InvalidBridge,
        Note(listenPort.Some? && !Publishes(Get(fields, "ports"), listenPort.value),
             NotPublished(if listenPort.Some? then listenPort.value else 0), []))))))));
      var issues :=
        if shape != [] || !complete then shape
        else
          var error := ValidateInput(ip, BridgeInput(name, listenPort.value, targetHost.value, targetPort.value));
          if error.Some? then [InvalidInput(error.value)] else [];
      BridgeDefinition(name, listenPort, targetHost, targetPort, issues)
  }

  predicate Publishes(ports: Yaml, port: int) {
    ports.Items? && exists item | item in ports.items :: Shown(item) == Published(port)
  }

  /** The managed definition of an input. */
  function DefinitionOf(v: BridgeInput): BridgeDefinition {
    BridgeDefinition(v.name, Some(v.listenPort), Some(v.targetHost), Some(v.targetPort), [])
  }

  // ---------------------------------------------------------------- results

  /** A managed service is complete, and its parts would pass validation; in particular its
      name is not empty, on which the port check relies. */
  lemma ManagedIsValid(ip: IpParser, name: string, raw: Yaml)
    requires ParseService(ip, name, raw).Managed()
    ensures var d := ParseService(ip, name, raw);
            && d.name == name && name != ""
            && d.listenPort.Some? && d.targetHost.Some? && d.targetPort.Some?
            && ValidateInput(ip, BridgeInput(name, d.listenPort.value, d.targetHost.value, d.targetPort.value)) == None
  {
  }

  lemma GetLater(fields: seq<(string, Yaml)>, k: nat, key: string)
    requires k < |fields|
    requires fields[k].0 == key
    requires forall j :: 0 <= j < k ==> fields[j].0 != key
    ensures Get(fields, key) == fields[k].1
  {
    if k > 0 {
      GetLater(fields[1..], k - 1, key);
    }
  }

  lemma StandardGets(v: BridgeInput)
    ensures var f := StandardFields(v);
            && Get(f, "build") == Str(".") && Get(f, "image") == Str(IMAGE)
            && Get(f, "container_name") == Str(v.name) && Get(f, "restart") == Str("unless-stopped")
            && Get(f, "ports") == Items([Str(Published(v.listenPort))])
            && Get(f, "environment") == Fields(StandardEnvironment(v))
  {
    var f := StandardFields(v);
    assert f[0].0[0] == 'b' && f[1].0[0] == 'i' && f[2].0[0] == 'c';
    assert f[3].0[0] == 'r' && f[4].0[0] == 'p' && f[5].0[0] == 'e';
    GetLater(f, 0, "build");
    GetLater(f, 1, "image");
    GetLater(f, 2, "container_name");
    GetLater(f, 3, "restart");
    GetLater(f, 4, "ports");
    GetLater(f, 5, "environment");
  }

  lemma StandardKeys(v: BridgeInput)
    ensures Keys(StandardFields(v)) - MANAGED_KEYS == {}
  {
  }

  lemma {:induction false} EnvironmentOfThree(a: string, x: string, b: string, y: string, c: string, z: string)
    ensures EnvironmentOfFields([(a, Str(x)), (b, Str(y)), (c, Str(z))]) == map[a := x] + (map[b := y] + map[c := z])
  {
    var f := [(a, Str(x)), (b, Str(y)), (c, Str(z))];
    assert f[1..] == [(b, Str(y)), (c, Str(z))];
    assert f[1..][1..] == [(c, Str(z))];
    assert EnvironmentOfFields([(c, Str(z))]) == map[c := z];
  }

  lemma StandardEnvironmentRead(v: BridgeInput)
    ensures var e := EnvironmentOfFields(StandardEnvironment(v));
            && e.Keys == ENV_KEYS
            && Lookup(e, "LISTEN_PORT") == Some(PrintInt(v.listenPort))
            && Lookup(e, "TARGET_HOST") == Some(v.targetHost)
            && Lookup(e, "TARGET_PORT") == Some(PrintInt(v.targetPort))
  {
    var a, b, c := "LISTEN_PORT", "TARGET_HOST", "TARGET_PORT";
    assert a[0] == 'L' && b[0] == 'T' && c[0] == 'T' && b[7] == 'H' && c[7] == 'P';
    EnvironmentOfThree(a, PrintInt(v.listenPort), b, v.targetHost, c, PrintInt(v.targetPort));
  }

  lemma PortReadsBack(port: int)
    requires IsPort(port)
    ensures PortOf(Some(PrintInt(port))) == Some(port)
  {
    ParseDecimal(port);
  }

  /** Every input that passes validation comes back, managed, from the service built of it. */
  lemma StandardServiceReadsBack(ip: IpParser, v: BridgeInput)
    requires ValidateInput(ip, v) == None
    ensures ParseService(ip, v.name, StandardService(v))
         == DefinitionOf(v)
  {
    StandardGets(v);
    StandardKeys(v);
    StandardEnvironmentRead(v);
    PortReadsBack(v.listenPort);
    PortReadsBack(v.targetPort);
    assert v.targetHost != "";
    var ports := Items([Str(Published(v.listenPort))]);
    assert Publishes(ports, v.listenPort) by {
      assert ports.items[0] in ports.items;
    }
  }

  /** Rebuilding a managed service from what was read of it gives the same definition. */
  lemma ManagedRebuilds(ip: IpParser, name: string, raw: Yaml)
    requires ParseService(ip, name, raw).Managed()
    ensures var d := ParseService(ip, name, raw);
            && d.listenPort.Some? && d.targetHost.Some? && d.targetPort.Some?
            && var v := BridgeInput(name, d.listenPort.value, d.targetHost.value, d.targetPort.value);
               ParseService(ip, name, StandardService(v)) == d
  {
    ManagedIsValid(ip, name, raw);
    var d := ParseService(ip, name, raw);
    StandardServiceReadsBack(ip, BridgeInput(name, d.listenPort.value, d.targetHost.value, d.targetPort.value));
  }

  /** The standard service publishes the listen port under its own number, and nothing else. */
  lemma StandardPublishes(v: BridgeInput)
    requires IsPort(v.listenPort)
    ensures var ports := Get(StandardFields(v), "ports");
            && ports.Items? && |ports.items| == 1 && ports.items[0].Str?
            && |Split(ports.items[0].text, ':')| == 2
            && ParseInt(Split(ports.items[0].text, ':')[0]) == Some(v.listenPort)
            && ParseInt(Split(ports.items[0].text, ':')[1]) == Some(v.listenPort)
  {
    StandardGets(v);
    var port := PrintInt(v.listenPort);
    ParseDecimal(v.listenPort);
    SplitWhole(port, ':');
    SplitAppend(port, ':', port);
    assert Published(v.listenPort) == port + [':'] + port;
  }

  // ---------------------------------------------------------------- environments

  function Assignments(pairs: seq<(string, string)>): seq<Yaml> {
    seq(|pairs|, i requires 0 <= i < |pairs| => Str(pairs[i].0 + "=" + pairs[i].1))
  }

  function Entries(pairs: seq<(string, string)>): seq<(string, Yaml)> {
    seq(|pairs|, i requires 0 <= i < |pairs| => (pairs[i].0, Str(pairs[i].1)))
  }

  lemma AssignmentReads(key: string, value: string)
    requires '=' !in key
    ensures Assignment(key + "=" + value) == map[key := value]
  {
    SplitWhole(key, '=');
    SplitAppend(key, '=', value);
    JoinSplit(value, '=');
    assert Split(key + "=" + value, '=')[1..] == Split(value, '=');
  }

  /** A list of assignments reads as the mapping with the same entries, whatever the values contain. */
  lemma {:induction false} ListReadsAsMapping(pairs: seq<(string, string)>)
    requires forall pair | pair in pairs :: '=' !in pair.0
    ensures EnvironmentOf(Items(Assignments(pairs))) == EnvironmentOf(Fields(Entries(pairs)))
  {
    if pairs != [] {
      assert pairs[0] in pairs;
      AssignmentReads(pairs[0].0, pairs[0].1);
      ListReadsAsMapping(pairs[1..]);
      assert Assignments(pairs)[1..] == Assignments(pairs[1..]);
      assert Entries(pairs)[1..] == Entries(pairs[1..]);
    }
  }

  /** Items of a list that are no assignments are passed over. */
  lemma OtherItemsIgnored(item: Yaml, items: seq<Yaml>)
    requires !item.Str? || '=' !in item.text
    ensures EnvironmentOf(Items([item] + items)) == EnvironmentOf(Items(items))
  {
    assert ([item] + items)[1..] == items;
  }

  /** A mapping reads as its entries, printed, without those that are null. */
  lemma {:induction false} MappingReads(fields: seq<(string, Yaml)>, key: string)
    requires forall i, j | 0 <= i < j < |fields| :: fields[i].0 != fields[j].0
    ensures Lookup(EnvironmentOf(Fields(fields)), key)
         == if Get(fields, key).Null? then None else Some(Shown(Get(fields, key)))
  {
    if fields != [] {
      MappingReads(fields[1..], key);
      if fields[0].0 == key {
        AbsentIsNull(fields[1..], key);
      }
    }
  }

  lemma {:induction false} AbsentIsNull(fields: seq<(string, Yaml)>, key: string)
    requires forall i | 0 <= i < |fields| :: fields[i].0 != key
    ensures Get(fields, key) == Null
  {
    if fields != [] {
      AbsentIsNull(fields[1..], key);
    }
  }

  /** Of any service, managed or not, a port is read exactly when its variable spells a number from 1 to
      65535, and the host is what its variable says. */
  lemma ReadWhateverElse(ip: IpParser, name: string, fields: seq<(string, Yaml)>, port: int)
    ensures var environment, d := EnvironmentOf(Get(fields, "environment")), ParseService(ip, name, Fields(fields));
            && d.name == name
            && (d.listenPort == Some(port) <==>
                  "LISTEN_PORT" in environment && ParseInt(environment["LISTEN_PORT"]) == Some(port)
                  && 1 <= port <= 65535)
            && (d.targetPort == Some(port) <==>
                  "TARGET_PORT" in environment && ParseInt(environment["TARGET_PORT"]) == Some(port)
                  && 1 <= port <= 65535)
            && d.targetHost == Lookup(environment, "TARGET_HOST")
  {
  }

  // ---------------------------------------------------------------- what managed means

  /** Two environments that read alike: the same variables, the same host, the same port numbers. */
  ghost predicate ReadAlike(a: Environment, b: Environment) {
    && a.Keys == b.Keys == ENV_KEYS
    && a["TARGET_HOST"] == b["TARGET_HOST"]
    && PortOf(Some(a["LISTEN_PORT"])) == PortOf(Some(b["LISTEN_PORT"]))
    && PortOf(Some(a["TARGET_PORT"])) == PortOf(Some(b["TARGET_PORT"]))
  }

  /** The entries that are compared as they stand. */
  ghost predicate SameEntries(a: seq<(string, Yaml)>, b: seq<(string, Yaml)>) {
    && Get(a, "build") == Get(b, "build") && Get(a, "image") == Get(b, "image")
    && Get(a, "container_name") == Get(b, "container_name") && Get(a, "restart") == Get(b, "restart")
  }

  /** All that may set a managed service apart from the standard one of `v`: the order of its entries,
      the spelling of its environment and further port mappings. */
  ghost predicate LikeStandard(raw: Yaml, v: BridgeInput) {
    raw.Fields? &&
    (var own, standard := raw.fields, StandardFields(v);
     && Keys(own) <= MANAGED_KEYS
     && SameEntries(own, standard)
     && ReadAlike(EnvironmentOf(Get(own, "environment")), EnvironmentOf(Get(standard, "environment")))
     && Publishes(Get(own, "ports"), v.listenPort))
  }

  /** A service is managed exactly when it is like the standard service of some accepted input. */
  lemma ManagedIsLikeStandard(ip: IpParser, name: string, raw: Yaml)
    ensures ParseService(ip, name, raw).Managed() <==>
            exists v: BridgeInput :: v.name == name && ValidateInput(ip, v) == None && LikeStandard(raw, v)
  {
    if ParseService(ip, name, raw).Managed() {
      var d := ParseService(ip, name, raw);
      ManagedIsValid(ip, name, raw);
      LikeItsInput(ip, name, raw, BridgeInput(name, d.listenPort.value, d.targetHost.value, d.targetPort.value));
    }
    forall v: BridgeInput | v.name == name && ValidateInput(ip, v) == None && LikeStandard(raw, v)
      ensures ParseService(ip, name, raw).Managed()
    {
      LikeStandardIsManaged(ip, raw, v);
    }
  }

  lemma StandardReads(v: BridgeInput)
    requires IsPort(v.listenPort) && IsPort(v.targetPort)
    ensures var e := EnvironmentOf(Get(StandardFields(v), "environment"));
            && e.Keys == ENV_KEYS && e["TARGET_HOST"] == v.targetHost
            && PortOf(Some(e["LISTEN_PORT"])) == Some(v.listenPort)
            && PortOf(Some(e["TARGET_PORT"])) == Some(v.targetPort)
  {
    StandardGets(v);
    StandardEnvironmentRead(v);
    PortReadsBack(v.listenPort);
    PortReadsBack(v.targetPort);
  }

  lemma LikeItsInput(ip: IpParser, name: string, raw: Yaml, v: BridgeInput)
    requires ParseService(ip, name, raw) == DefinitionOf(v) && v.name == name && ValidateInput(ip, v) == None
    ensures LikeStandard(raw, v)
  {
    StandardGets(v);
    StandardReads(v);
  }

  lemma LikeStandardIsManaged(ip: IpParser, raw: Yaml, v: BridgeInput)
    requires ValidateInput(ip, v) == None && LikeStandard(raw, v)
    ensures ParseService(ip, v.name, raw).Managed()
  {
    StandardGets(v);
    StandardReads(v);
    assert v.targetHost != "";
  }

  // ---------------------------------------------------------------- what the manager relies on

  datatype Reader = Reader(check: BridgeInput -> Option<InputError>, parse: (string, Yaml) -> BridgeDefinition)

  /** A definition keeps its name, what is read as managed has a name and a port, and the standard
      service of an accepted input is read as the input. */
  ghost predicate Sound(r: Reader) {
    && (forall name, raw :: r.parse(name, raw).name == name)
    && (forall name, raw :: r.parse(name, raw).Managed() ==> name != "" && r.parse(name, raw).listenPort.Some?)
    && (forall v :: r.check(v) == None ==> r.parse(v.name, StandardService(v)) == DefinitionOf(v))
  }

  /** The program's own checks and parser, with its way to tell addresses from host names. */
  function ReaderOf(ip: IpParser): (r: Reader)
    ensures Sound(r)
  {
    var r := Reader(v => ValidateInput(ip, v), (name, raw) => ParseService(ip, name, raw));
    ReaderIsSound(ip, r);
    r
  }

  lemma ReaderIsSound(ip: IpParser, r: Reader)
    requires forall v :: r.check(v) == ValidateInput(ip, v)
    requires forall name, raw :: r.parse(name, raw) == ParseService(ip, name, raw)
    ensures Sound(r)
  {
    forall name, raw | r.parse(name, raw).Managed() ensures name != "" && r.parse(name, raw).listenPort.Some? {
      ManagedIsValid(ip, name, raw);
    }
    forall v | r.check(v) == None ensures r.parse(v.name, StandardService(v)) == DefinitionOf(v) {
      StandardServiceReadsBack(ip, v);
    }
  }

  type Rules = r: Reader | Sound(r) witness ReaderOf(_ => NotAnAddress)
}
