/** Compose documents and what the bridge operations make of them (services/bridges.py): the check
    on listen ports, and the edits of create, update and delete. */
module BridgeDocuments {
  import opened Wrappers
  import opened BridgeServices

  datatype Service = Service(name: string, raw: Yaml)

  predicate UniqueNames(services: seq<Service>) {
    forall i, j :: 0 <= i < j < |services| ==> services[i].name != services[j].name
  }

  /** The mapping under `services`, in its order. */
  type Services = services: seq<Service> | UniqueNames(services) witness []

  datatype Document = Document(services: Services, rest: seq<(string, Yaml)>)

  datatype Error =
    | BadInput(error: InputError)
    | NotReadable
    | NotAMappingDocument
    | ServicesNotAMapping
    | AlreadyExists(name: string)
    | UnknownBridge(name: string)
    | ReadOnly
    | PortUsed(port: int, owner: string)
    | ComposeInvalid
    | CommandFailed
    | FileError

  function Find(services: seq<Service>, name: string): (r: Option<Yaml>)
    ensures r.None? <==> forall service | service in services :: service.name != name
    ensures r.Some? ==> Service(name, r.value) in services
  {
    if services == [] then None
    else if services[0].name == name then Some(services[0].raw)
    else Find(services[1..], name)
  }

  // ---------------------------------------------------------------- ports

  /** The first of the leading `k` entries that takes a port. */
  function OwnerBelow(taken: seq<Option<int>>, k: nat, port: Option<int>): (r: Option<nat>)
    requires k <= |taken|
    ensures r.Some? ==> r.value < k && taken[r.value] == port
    ensures r.None? ==> port !in taken[..k]
  {
    if k == 0 then None
    else
      var earlier := OwnerBelow(taken, k - 1, port);
      if earlier.None? && taken[k - 1] == port then Some(k - 1) else earlier
  }

  /** The earlier entry that takes the port of entry `j`. */
  function EarlierOwner(taken: seq<Option<int>>, j: nat): (r: Option<nat>)
    requires j < |taken|
    ensures r.Some? ==> r.value < j && taken[r.value] == taken[j] != None
    ensures r.None? ==> taken[j].None? || forall i :: 0 <= i < j ==> taken[i] != taken[j]
  {
    if taken[j].None? then None else OwnerBelow(taken, j, taken[j])
  }

  predicate Distinct(taken: seq<Option<int>>) {
    forall i, j :: 0 <= i < j < |taken| && taken[i].Some? ==> taken[i] != taken[j]
  }

  /** The first entry from `j` on whose port an earlier one takes already. */
  function ClashFrom(taken: seq<Option<int>>, j: nat): (r: Option<nat>)
    requires j <= |taken|
    ensures r.Some? ==> j <= r.value < |taken| && EarlierOwner(taken, r.value).Some?
    ensures r.None? ==> forall k :: j <= k < |taken| ==> EarlierOwner(taken, k).None?
    decreases |taken| - j
  {
    if j == |taken| then None
    else if EarlierOwner(taken, j).Some? then Some(j)
    else ClashFrom(taken, j + 1)
  }

  lemma NoClashIsDistinct(taken: seq<Option<int>>)
    ensures ClashFrom(taken, 0).None? <==> Distinct(taken)
  {
    if ClashFrom(taken, 0).None? {
      forall i, j | 0 <= i < j < |taken| && taken[i].Some? ensures taken[i] != taken[j] {
        assert EarlierOwner(taken, j).None?;
      }
    }
  }

  predicate Manages(rules: Rules, service: Service) {
    rules.parse(service.name, service.raw).Managed()
  }

  /** The port a managed service listens on. */
  function PortTaken(rules: Rules, service: Service): (r: Option<int>)
    ensures Manages(rules, service) <==> r.Some?
    ensures r.Some? ==> service.name != ""
  {
    if Manages(rules, service) then
      rules.parse(service.name, service.raw).listenPort
    else None
  }

  function PortsTaken(rules: Rules, services: seq<Service>): (r: seq<Option<int>>)
    ensures |r| == |services|
    ensures forall i :: 0 <= i < |r| ==> r[i] == PortTaken(rules, services[i])
  {
    seq(|services|, i requires 0 <= i < |services| => PortTaken(rules, services[i]))
  }

  /** The managed services listen on pairwise distinct ports. */
  predicate PortsDistinct(rules: Rules, services: seq<Service>) {
    Distinct(PortsTaken(rules, services))
  }

  /** The error of the first clash. */
  function FirstClash(rules: Rules, services: seq<Service>): Option<Error> {
    var taken := PortsTaken(rules, services);
    var j := ClashFrom(taken, 0);
    if j.None? then None
    else Some(PortUsed(taken[j.value].value, services[EarlierOwner(taken, j.value).value].name))
  }

  /** The check passes exactly when the ports are distinct; otherwise it names a port two managed
      services listen on, and the earlier of them. */
  lemma ClashIsReal(rules: Rules, services: seq<Service>)
    ensures FirstClash(rules, services).None? <==> PortsDistinct(rules, services)
    ensures FirstClash(rules, services).Some? ==>
            (exists i, j :: 0 <= i < j < |services|
                && Manages(rules, services[i]) && Manages(rules, services[j])
                && FirstClash(rules, services).value
                   == PortUsed(PortTaken(rules, services[j]).value, services[i].name)
                && PortTaken(rules, services[i]) == PortTaken(rules, services[j]))
  {
    NoClashIsDistinct(PortsTaken(rules, services));
  }

  function UsedBy(used: map<int, string>, port: int): Option<string> {
    if port in used then Some(used[port]) else None
  }

  /** The owners recorded after `k` services. */
  ghost predicate Records(services: seq<Service>, taken: seq<Option<int>>, k: nat, used: map<int, string>)
    requires k <= |services| == |taken|
  {
    forall port ::
      var owner := OwnerBelow(taken, k, Some(port));
      UsedBy(used, port) == if owner.None? then None else Some(services[owner.value].name)
  }

  lemma RecordsNext(services: seq<Service>, taken: seq<Option<int>>, k: nat, used: map<int, string>)
    requires k < |services| == |taken|
    requires Records(services, taken, k, used)
    requires EarlierOwner(taken, k).None?
    ensures Records(services, taken, k + 1,
                    if taken[k].None? then used else used[taken[k].value := services[k].name])
  {
    var next := if taken[k].None? then used else used[taken[k].value := services[k].name];
    forall port
      ensures var owner := OwnerBelow(taken, k + 1, Some(port));
              UsedBy(next, port) == if owner.None? then None else Some(services[owner.value].name)
    {
      var owner := OwnerBelow(taken, k, Some(port));
      assert UsedBy(used, port) == if owner.None? then None else Some(services[owner.value].name);
    }
  }

  /** The test `if owner:` finds every earlier owner, because managed services have names. */
  lemma OwnerIsFound(rules: Rules, services: seq<Service>, k: nat, used: map<int, string>)
    requires k < |services|
    requires Records(services, PortsTaken(rules, services), k, used)
    requires PortTaken(rules, services[k]).Some?
    ensures var port, owner := PortTaken(rules, services[k]).value, EarlierOwner(PortsTaken(rules, services), k);
            if port in used && used[port] != "" then owner.Some? && services[owner.value].name == used[port]
            else owner.None?
  {
    var taken := PortsTaken(rules, services);
    var port := PortTaken(rules, services[k]).value;
    var owner := OwnerBelow(taken, k, Some(port));
    assert UsedBy(used, port) == if owner.None? then None else Some(services[owner.value].name);
    if owner.Some? {
      assert PortTaken(rules, services[owner.value]).Some?;
    }
  }

  /** `_validate_document`. */
  method ValidateDocument(rules: Rules, services: seq<Service>) returns (error: Option<Error>)
    ensures error == FirstClash(rules, services)
  {
    var used: map<int, string> := map[];
    ghost var taken := PortsTaken(rules, services);
    for i := 0 to |services|
      invariant ClashFrom(taken, 0) == ClashFrom(taken, i)
      invariant Records(services, taken, i, used)
    {
      var bridge := rules.parse(services[i].name, services[i].raw);
      if bridge.Managed() && bridge.listenPort.Some? {
        var port := bridge.listenPort.value;
        OwnerIsFound(rules, services, i, used);
        if port in used && used[port] != "" {
          return Some(PortUsed(port, used[port]));
        }
        RecordsNext(services, taken, i, used);
        used := used[port := bridge.name];
      } else {
        RecordsNext(services, taken, i, used);
      }
    }
    return None;
  }

  // ---------------------------------------------------------------- edits

  /** `{(value.name if name == current_name else name): … for name, raw in services.items()}`. */
  function Replaced(services: seq<Service>, name: string, replacement: Service): (r: seq<Service>)
    ensures |r| == |services|
    ensures forall i :: 0 <= i < |r| ==> r[i] == if services[i].name == name then replacement else services[i]
  {
    if services == [] then []
    else [if services[0].name == name then replacement else services[0]] + Replaced(services[1..], name, replacement)
  }

  /** `del services[name]`. */
  function Without(services: seq<Service>, name: string): (r: seq<Service>)
    ensures |r| <= |services|
    ensures forall service :: service in r <==> service in services && service.name != name
  {
    if services == [] then []
    else (if services[0].name == name then [] else [services[0]]) + Without(services[1..], name)
  }

  lemma {:induction false} WithoutKeepsUnique(services: seq<Service>, name: string)
    requires UniqueNames(services)
    ensures UniqueNames(Without(services, name))
  {
    if services != [] {
      WithoutKeepsUnique(services[1..], name);
      var rest := Without(services[1..], name);
      forall service | service in rest ensures service.name != services[0].name {
        var j :| 0 <= j < |services[1..]| && services[1..][j] == service;
        assert services[j + 1] == service;
      }
    }
  }

  lemma ReplacedKeepsUnique(services: seq<Service>, name: string, entry: Service)
    requires UniqueNames(services)
    requires entry.name == name || Find(services, entry.name).None?
    ensures UniqueNames(Replaced(services, name, entry))
  {
    var replaced := Replaced(services, name, entry);
    forall i, j | 0 <= i < j < |replaced| ensures replaced[i].name != replaced[j].name {
      assert services[i] in services && services[j] in services;
    }
  }

  datatype Edit =
    | Create(value: BridgeInput)
    | Update(current: string, value: BridgeInput)
    | Delete(name: string)
  {
    /** The service the edit takes away, if any, by name. */
    function Removed(): Option<string> {
      match this
      case Create(_) => None
      case Update(current, _) => Some(current)
      case Delete(name) => Some(name)
    }

    /** What the edit puts in. */
    function Added(): Option<BridgeInput> {
      match this
      case Create(value) => Some(value)
      case Update(_, value) => Some(value)
      case Delete(_) => None
    }
  }

  function StandardEntry(value: BridgeInput): Service {
    Service(value.name, StandardService(value))
  }

  /** The checks of an edit on the loaded services, in the source's order. */
  function Refused(rules: Rules, services: seq<Service>, edit: Edit): Option<Error> {
    match edit
    case Create(value) =>
      if Find(services, value.name).Some? then Some(AlreadyExists(value.name)) else None
    case Update(current, value) =>
      if Find(services, current).None? then Some(UnknownBridge(current))
      else if !Manages(rules, Service(current, Find(services, current).value)) then Some(ReadOnly)
      else if value.name != current && Find(services, value.name).Some? then Some(AlreadyExists(value.name))
      else None
    case Delete(name) =>
      if Find(services, name).None? then Some(UnknownBridge(name))
      else if !Manages(rules, Service(name, Find(services, name).value)) then Some(ReadOnly)
      else None
  }

  ghost predicate HasName(services: seq<Service>, name: string) {
    exists service | service in services :: service.name == name
  }

  /** What is taken away must be there and managed; what is put in must not share the name of another. */
  ghost predicate NamesAllow(rules: Rules, services: seq<Service>, edit: Edit) {
    && (edit.Removed().Some? ==>
          exists service | service in services :: service.name == edit.Removed().value && Manages(rules, service))
    && (edit.Added().Some? ==>
          forall service | service in services && service.name == edit.Added().value.name ::
            edit.Removed() == Some(service.name))
  }

  /** An edit is refused exactly when the names do not allow it, and with the error that says why. */
  lemma RefusedExactly(rules: Rules, services: Services, edit: Edit)
    ensures Refused(rules, services, edit).None? <==> NamesAllow(rules, services, edit)
    ensures edit.Removed().Some? && !HasName(services, edit.Removed().value) ==>
            Refused(rules, services, edit) == Some(UnknownBridge(edit.Removed().value))
    ensures edit.Removed().Some? && HasName(services, edit.Removed().value) ==>
            (Refused(rules, services, edit) == Some(ReadOnly) <==>
             forall service | service in services && service.name == edit.Removed().value :: !Manages(rules, service))
    ensures Refused(rules, services, edit).Some? && Refused(rules, services, edit).value.AlreadyExists? ==>
            edit.Added().Some? && Refused(rules, services, edit) == Some(AlreadyExists(edit.Added().value.name))
    ensures edit.Removed().None? ==>
            (Refused(rules, services, edit).Some? ==> Refused(rules, services, edit).value.AlreadyExists?)
  {
    if edit.Removed().Some? && Find(services, edit.Removed().value).Some? {
      var name := edit.Removed().value;
      var service := Service(name, Find(services, name).value);
      forall other | other in services && other.name == name ensures other == service {
      }
    }
  }

  function Edited(services: Services, edit: Edit): seq<Service> {
    match edit
    case Create(value) => services + [StandardEntry(value)]
    case Update(current, value) => Replaced(services, current, StandardEntry(value))
    case Delete(name) => Without(services, name)
  }

  lemma EditKeepsUnique(rules: Rules, services: Services, edit: Edit)
    requires Refused(rules, services, edit).None?
    ensures UniqueNames(Edited(services, edit))
  {
    match edit
    case Create(_) =>
    case Update(current, value) => ReplacedKeepsUnique(services, current, StandardEntry(value));
    case Delete(name) => WithoutKeepsUnique(services, name);
  }
}
