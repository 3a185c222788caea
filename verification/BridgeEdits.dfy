/** What create, update and delete promise about the services of a document (services/bridges.py). */
module BridgeEdits {
  import opened Wrappers
  import opened BridgeServices
  import opened BridgeDocuments

  /** The services other than the one named. */
  function Others(services: seq<Service>, name: Option<string>): seq<Service> {
    if name.None? then services else Without(services, name.value)
  }

  function AddedName(edit: Edit): Option<string> {
    if edit.Added().None? then None else Some(edit.Added().value.name)
  }

  predicate ValidEdit(rules: Rules, edit: Edit) {
    edit.Added().Some? ==> rules.check(edit.Added().value) == None
  }

  // ---------------------------------------------------------------- others

  lemma {:induction false} WithoutAbsent(services: seq<Service>, name: string)
    requires forall service | service in services :: service.name != name
    ensures Without(services, name) == services
  {
    if services != [] {
      WithoutAbsent(services[1..], name);
    }
  }

  lemma {:induction false} WithoutAppend(a: seq<Service>, b: seq<Service>, name: string)
    ensures Without(a + b, name) == Without(a, name) + Without(b, name)
  {
    if a == [] {
      assert a + b == b;
    } else {
      assert (a + b)[1..] == a[1..] + b;
      WithoutAppend(a[1..], b, name);
    }
  }

  lemma {:induction false} WithoutReplaced(services: seq<Service>, name: string, entry: Service)
    requires forall service | service in services :: service.name != name ==> service.name != entry.name
    ensures Without(Replaced(services, name, entry), entry.name) == Without(services, name)
  {
    if services != [] {
      WithoutReplaced(services[1..], name, entry);
      assert Replaced(services, name, entry)[1..] == Replaced(services[1..], name, entry);
    }
  }

  /** Every service other than the operand keeps its definition and its place among the others. */
  lemma OthersKept(rules: Rules, services: Services, edit: Edit)
    requires Refused(rules, services, edit).None?
    ensures Others(Edited(services, edit), AddedName(edit)) == Others(services, edit.Removed())
  {
    match edit
    case Create(value) =>
      WithoutAppend(services, [StandardEntry(value)], value.name);
      WithoutAbsent(services, value.name);
    case Update(current, value) =>
      WithoutReplaced(services, current, StandardEntry(value));
    case Delete(_) =>
  }

  /** The operand is afterwards managed, with the input's values, under the input's name. */
  lemma OperandReadsBack(rules: Rules, services: Services, edit: Edit, value: BridgeInput)
    requires Refused(rules, services, edit).None? && ValidEdit(rules, edit)
    requires edit.Added() == Some(value)
    ensures StandardEntry(value) in Edited(services, edit)
    ensures rules.parse(value.name, StandardService(value))
         == DefinitionOf(value)
  {
    if edit.Update? {
      var service := Service(edit.current, Find(services, edit.current).value);
      var i :| 0 <= i < |services| && services[i] == service;
      assert Replaced(services, edit.current, StandardEntry(value))[i] == StandardEntry(value);
    }
  }

  // ---------------------------------------------------------------- undoing

  /** Deleting what create added restores the services. */
  lemma CreateThenDelete(rules: Rules, services: Services, value: BridgeInput)
    requires Refused(rules, services, Create(value)).None? && rules.check(value) == None
    ensures UniqueNames(Edited(services, Create(value)))
    ensures Refused(rules, Edited(services, Create(value)), Delete(value.name)).None?
    ensures Edited(Edited(services, Create(value)), Delete(value.name)) == services
  {
    EditKeepsUnique(rules, services, Create(value));
    OthersKept(rules, services, Create(value));
    OperandReadsBack(rules, services, Create(value), value);
    FindUnique(Edited(services, Create(value)), StandardEntry(value));
  }

  lemma FindUnique(services: Services, service: Service)
    requires service in services
    ensures Find(services, service.name) == Some(service.raw)
  {
  }

  lemma {:induction false} ReplacedBack(services: seq<Service>, name: string, entry: Service, original: Service)
    requires forall service | service in services :: service.name != name ==> service.name != entry.name
    requires forall service | service in services :: service.name == name ==> service == original
    ensures Replaced(Replaced(services, name, entry), entry.name, original) == services
  {
    if services != [] {
      assert Replaced(services, name, entry)[1..] == Replaced(services[1..], name, entry);
      ReplacedBack(services[1..], name, entry, original);
    }
  }

  lemma NameIsGone(services: seq<Service>, name: string, entry: Service)
    requires entry.name != name
    ensures Find(Replaced(services, name, entry), name).None?
  {
  }

  /** Updating a bridge and updating it back restores the services, in their order. */
  lemma UpdateThenBack(rules: Rules, services: Services, was: BridgeInput, value: BridgeInput)
    requires Find(services, was.name) == Some(StandardService(was))
    requires value.name == was.name || Find(services, value.name).None?
    requires rules.check(was) == None && rules.check(value) == None
    ensures UniqueNames(Edited(services, Update(was.name, value)))
    ensures Refused(rules, Edited(services, Update(was.name, value)), Update(value.name, was)).None?
    ensures Edited(Edited(services, Update(was.name, value)), Update(value.name, was)) == services
  {
    var edit := Update(was.name, value);
    EditKeepsUnique(rules, services, edit);
    OperandReadsBack(rules, services, edit, value);
    FindUnique(Edited(services, edit), StandardEntry(value));
    forall service | service in services && service.name == was.name ensures service == StandardEntry(was) {
      FindUnique(services, service);
    }
    ReplacedBack(services, was.name, StandardEntry(value), StandardEntry(was));
    if value.name != was.name {
      NameIsGone(services, was.name, StandardEntry(value));
    }
  }

  // ---------------------------------------------------------------- ports

  predicate Taken(rules: Rules, services: seq<Service>, port: int) {
    exists service | service in services :: PortTaken(rules, service) == Some(port)
  }

  lemma DistinctFirst(first: Option<int>, rest: seq<Option<int>>)
    ensures Distinct([first] + rest) <==> Distinct(rest) && (first.Some? ==> first !in rest)
  {
    var all := [first] + rest;
    assert forall i :: 0 <= i < |rest| ==> all[i + 1] == rest[i];
    if Distinct(all) {
      forall i, j | 0 <= i < j < |rest| && rest[i].Some? ensures rest[i] != rest[j] {
        assert all[i + 1] != all[j + 1];
      }
      forall j | first.Some? && 0 <= j < |rest| ensures rest[j] != first {
        assert all[0] != all[j + 1];
      }
    }
  }

  lemma TakenInPorts(rules: Rules, services: seq<Service>, port: int)
    ensures Taken(rules, services, port) <==> Some(port) in PortsTaken(rules, services)
  {
    var taken := PortsTaken(rules, services);
    if Some(port) in taken {
      var i :| 0 <= i < |taken| && taken[i] == Some(port);
      assert services[i] in services;
    }
    if Taken(rules, services, port) {
      var i :| 0 <= i < |services| && PortTaken(rules, services[i]) == Some(port);
      assert taken[i] in taken;
    }
  }

  lemma DistinctCons(rules: Rules, first: Service, rest: seq<Service>)
    ensures PortsDistinct(rules, [first] + rest) <==>
            PortsDistinct(rules, rest)
            && (PortTaken(rules, first).Some? ==> !Taken(rules, rest, PortTaken(rules, first).value))
  {
    var port := PortTaken(rules, first);
    assert PortsTaken(rules, [first] + rest) == [port] + PortsTaken(rules, rest);
    DistinctFirst(port, PortsTaken(rules, rest));
    if port.Some? {
      TakenInPorts(rules, rest, port.value);
    }
  }

  lemma {:induction false} DistinctWithout(rules: Rules, services: seq<Service>, name: string)
    requires PortsDistinct(rules, services)
    ensures PortsDistinct(rules, Without(services, name))
  {
    if services != [] {
      assert services == [services[0]] + services[1..];
      DistinctCons(rules, services[0], services[1..]);
      DistinctWithout(rules, services[1..], name);
      DistinctCons(rules, services[0], Without(services[1..], name));
    }
  }

  lemma DistinctLast(taken: seq<Option<int>>, last: Option<int>)
    requires last.Some?
    ensures Distinct(taken + [last]) <==> Distinct(taken) && last !in taken
  {
    var all := taken + [last];
    assert forall i :: 0 <= i < |taken| ==> all[i] == taken[i];
    assert all[|taken|] == last;
    if Distinct(all) {
      forall i, j | 0 <= i < j < |taken| && taken[i].Some? ensures taken[i] != taken[j] {
        assert all[i] != all[j];
      }
    }
  }

  lemma DistinctAppend(rules: Rules, services: seq<Service>, last: Service)
    requires PortTaken(rules, last).Some?
    ensures PortsDistinct(rules, services + [last]) <==>
            PortsDistinct(rules, services) && !Taken(rules, services, PortTaken(rules, last).value)
  {
    assert PortsTaken(rules, services + [last]) == PortsTaken(rules, services) + [PortTaken(rules, last)];
    DistinctLast(PortsTaken(rules, services), PortTaken(rules, last));
    TakenInPorts(rules, services, PortTaken(rules, last).value);
  }

  lemma DistinctUpdate(taken: seq<Option<int>>, i: nat, port: Option<int>)
    requires i < |taken| && port.Some? && Distinct(taken)
    ensures Distinct(taken[i := port]) <==> forall j :: 0 <= j < |taken| && j != i ==> taken[j] != port
  {
    var updated := taken[i := port];
    assert updated[i] == port;
    if Distinct(updated) {
      forall j | 0 <= j < |taken| && j != i ensures taken[j] != port {
        assert updated[j] == taken[j];
      }
    }
  }

  lemma PlaceOf(services: Services, name: string) returns (i: nat)
    requires Find(services, name).Some?
    ensures i < |services| && services[i] == Service(name, Find(services, name).value)
    ensures forall j :: 0 <= j < |services| && services[j].name == name ==> j == i
  {
    i :| 0 <= i < |services| && services[i] == Service(name, Find(services, name).value);
  }

  lemma PortsOfReplaced(rules: Rules, services: seq<Service>, name: string, entry: Service, i: nat)
    requires i < |services| && services[i].name == name
    requires forall j :: 0 <= j < |services| && services[j].name == name ==> j == i
    ensures PortsTaken(rules, Replaced(services, name, entry))
         == PortsTaken(rules, services)[i := PortTaken(rules, entry)]
  {
  }

  lemma DistinctReplaced(rules: Rules, services: Services, name: string, entry: Service)
    requires Find(services, name).Some? && PortTaken(rules, entry).Some? && PortsDistinct(rules, services)
    ensures PortsDistinct(rules, Replaced(services, name, entry)) <==>
            !Taken(rules, Without(services, name), PortTaken(rules, entry).value)
  {
    var i := PlaceOf(services, name);
    var taken := PortsTaken(rules, services);
    var port := PortTaken(rules, entry);
    PortsOfReplaced(rules, services, name, entry, i);
    DistinctUpdate(taken, i, port);
    TakenElsewhere(rules, services, name, i, port.value);
  }

  lemma TakenElsewhere(rules: Rules, services: Services, name: string, i: nat, port: int)
    requires i < |services| && services[i].name == name
    ensures Taken(rules, Without(services, name), port) <==>
            (exists j :: 0 <= j < |services| && j != i && PortsTaken(rules, services)[j] == Some(port))
  {
    var taken := PortsTaken(rules, services);
    if Taken(rules, Without(services, name), port) {
      var service :| service in Without(services, name) && PortTaken(rules, service) == Some(port);
      var j :| 0 <= j < |services| && services[j] == service;
      assert taken[j] == Some(port);
    } else {
      forall j | 0 <= j < |services| && j != i ensures taken[j] != Some(port) {
        assert services[j] in Without(services, name);
      }
    }
  }

  /** From distinct ports, an edit passes the port check exactly when no managed service other than
      the operand listens on its port. */
  lemma PortsAfterEdit(rules: Rules, services: Services, edit: Edit)
    requires Refused(rules, services, edit).None? && ValidEdit(rules, edit) && PortsDistinct(rules, services)
    ensures PortsDistinct(rules, Edited(services, edit)) <==>
            (edit.Added().Some? ==> !Taken(rules, Others(services, edit.Removed()), edit.Added().value.listenPort))
  {
    if edit.Added().Some? {
      StandardPort(rules, edit.Added().value);
    }
    match edit
    case Create(value) => DistinctAppend(rules, services, StandardEntry(value));
    case Update(current, value) => DistinctReplaced(rules, services, current, StandardEntry(value));
    case Delete(name) => DistinctWithout(rules, services, name);
  }

  lemma StandardPort(rules: Rules, value: BridgeInput)
    requires rules.check(value) == None
    ensures PortTaken(rules, StandardEntry(value)) == Some(value.listenPort)
  {
  }

  // ---------------------------------------------------------------- unmanaged services

  /** The services that are not managed, in order. */
  function Unmanaged(rules: Rules, services: seq<Service>): seq<Service> {
    if services == [] then []
    else (if Manages(rules, services[0]) then [] else [services[0]]) + Unmanaged(rules, services[1..])
  }

  lemma {:induction false} UnmanagedAppend(rules: Rules, services: seq<Service>, last: Service)
    requires Manages(rules, last)
    ensures Unmanaged(rules, services + [last]) == Unmanaged(rules, services)
  {
    if services == [] {
      assert services + [last] == [last];
      assert [last][1..] == [];
    } else {
      assert (services + [last])[1..] == services[1..] + [last];
      UnmanagedAppend(rules, services[1..], last);
    }
  }

  predicate AllManaged(rules: Rules, services: seq<Service>, name: string) {
    forall service | service in services && service.name == name :: Manages(rules, service)
  }

  lemma {:induction false} UnmanagedReplaced(rules: Rules, services: seq<Service>, name: string, entry: Service)
    requires AllManaged(rules, services, name) && Manages(rules, entry)
    ensures Unmanaged(rules, Replaced(services, name, entry)) == Unmanaged(rules, services)
  {
    if services != [] {
      UnmanagedReplaced(rules, services[1..], name, entry);
      assert Replaced(services, name, entry)[1..] == Replaced(services[1..], name, entry);
    }
  }

  lemma {:induction false} UnmanagedWithout(rules: Rules, services: seq<Service>, name: string)
    requires AllManaged(rules, services, name)
    ensures Unmanaged(rules, Without(services, name)) == Unmanaged(rules, services)
  {
    if services != [] {
      var rest := Without(services[1..], name);
      UnmanagedWithout(rules, services[1..], name);
      if services[0].name == name {
        assert Without(services, name) == rest;
      } else {
        assert Without(services, name) == [services[0]] + rest;
        UnmanagedCons(rules, services[0], rest);
      }
    }
  }

  lemma UnmanagedCons(rules: Rules, first: Service, rest: seq<Service>)
    ensures Unmanaged(rules, [first] + rest)
         == (if Manages(rules, first) then [] else [first]) + Unmanaged(rules, rest)
  {
    assert ([first] + rest)[1..] == rest;
  }

  /** No edit touches an unmanaged service. */
  lemma UnmanagedKept(rules: Rules, services: Services, edit: Edit)
    requires Refused(rules, services, edit).None? && ValidEdit(rules, edit)
    ensures Unmanaged(rules, Edited(services, edit)) == Unmanaged(rules, services)
  {
    if edit.Added().Some? {
      StandardPort(rules, edit.Added().value);
    }
    match edit
    case Create(value) => UnmanagedAppend(rules, services, StandardEntry(value));
    case Update(current, value) =>
      OperandIsManaged(rules, services, current);
      UnmanagedReplaced(rules, services, current, StandardEntry(value));
    case Delete(name) =>
      OperandIsManaged(rules, services, name);
      UnmanagedWithout(rules, services, name);
  }

  lemma OperandIsManaged(rules: Rules, services: Services, name: string)
    requires Find(services, name).Some? && Manages(rules, Service(name, Find(services, name).value))
    ensures AllManaged(rules, services, name)
  {
    var i := PlaceOf(services, name);
  }
}
