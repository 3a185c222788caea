/** Nodes for devices that have none (`ensure_device_nodes` of services/devices.py). The node
    table is a list in the order of its ids. */
module DeviceNodes {
  import opened Text

  datatype Node = Node(name: string, ip: string)

  datatype Device = Device(name: string, ip: string)

  function Names(nodes: seq<Node>): set<string> {
    set node | node in nodes :: node.name
  }

  function Ips(nodes: seq<Node>): set<string> {
    set node | node in nodes :: node.ip
  }

  // ---------------------------------------------------------------- fresh names

  function Suffixed(base: string, k: nat): string {
    base + "-" + Decimal(k)
  }

  lemma SuffixesDiffer(base: string, j: nat, k: nat)
    requires Suffixed(base, j) == Suffixed(base, k)
    ensures j == k
  {
    assert Suffixed(base, j)[|base| + 1..] == Decimal(j);
    assert Suffixed(base, k)[|base| + 1..] == Decimal(k);
    ParseDecimal(j);
    ParseDecimal(k);
  }

  /** Pigeonhole: no more suffixes can be taken than there are names. */
  lemma {:induction false} SuffixesTaken(names: set<string>, base: string, count: nat)
    requires forall j | 2 <= j < 2 + count :: Suffixed(base, j) in names
    ensures count <= |names|
    decreases count
  {
    if count > 0 {
      var last := Suffixed(base, count + 1);
      forall j | 2 <= j < 1 + count ensures Suffixed(base, j) in names - {last} {
        if Suffixed(base, j) == last {
          SuffixesDiffer(base, j, count + 1);
        }
      }
      SuffixesTaken(names - {last}, base, count - 1);
    }
  }

  /** The first free suffix from `k` on. */
  function FreeSuffix(names: set<string>, base: string, k: nat): (free: nat)
    requires 2 <= k && forall j | 2 <= j < k :: Suffixed(base, j) in names
    ensures k <= free <= |names| + 2
    ensures Suffixed(base, free) !in names
    ensures forall j | 2 <= j < free :: Suffixed(base, j) in names
    decreases |names| + 2 - k
  {
    SuffixesTaken(names, base, k - 2);
    if Suffixed(base, k) !in names then k
    else
      SuffixesTaken(names, base, k - 1);
      FreeSuffix(names, base, k + 1)
  }

  /** The name a new node gets: the device name, else its address, else the address with
      the first free suffix. */
  function NameFor(names: set<string>, device: Device): (name: string)
    ensures name !in names
  {
    if device.name !in names then device.name
    else if device.ip !in names then device.ip
    else Suffixed(device.ip, FreeSuffix(names, device.ip, 2))
  }

  /** `tries` counts the suffixes tried: at most one more than there are names. */
  method ChooseName(names: set<string>, device: Device) returns (name: string, ghost tries: nat)
    ensures name == NameFor(names, device)
    ensures tries <= |names| + 1
  {
    name := device.name;
    if name in names {
      name := device.ip;
    }
    var suffix := 2;
    var base := name;
    tries := 0;
    while name in names
      invariant suffix == tries + 2 && 2 <= suffix
      invariant base == if device.name in names then device.ip else device.name
      invariant name == if tries == 0 then base else Suffixed(base, suffix - 1)
      invariant forall j | 2 <= j < suffix - 1 :: Suffixed(base, j) in names
      invariant tries > 0 ==> base in names
      invariant tries <= |names| + 1
      decreases |names| + 2 - tries
    {
      if tries > 0 {
        SuffixesTaken(names, base, tries);
      }
      name := Suffixed(base, suffix);
      suffix := suffix + 1;
      tries := tries + 1;
    }
    if tries > 0 {
      FirstFree(names, base, suffix - 1);
    }
  }

  lemma FirstFree(names: set<string>, base: string, k: nat)
    requires 2 <= k && Suffixed(base, k) !in names && forall j | 2 <= j < k :: Suffixed(base, j) in names
    ensures FreeSuffix(names, base, 2) == k
  {
    assert Suffixed(base, FreeSuffix(names, base, 2)) !in names;
  }

  /** The names in the order in which they are to be tried. */
  function Candidate(device: Device, k: nat): string {
    if k == 0 then device.name
    else if k == 1 then device.ip
    else device.ip + "-" + Decimal(k)
  }

  /** The name given is the first that is free among the device's name, its address, and its address with
      `-2`, `-3` and so on behind it; so a free device name is the one given. */
  lemma FirstCandidate(names: set<string>, device: Device) returns (k: nat)
    ensures NameFor(names, device) == Candidate(device, k)
    ensures Candidate(device, k) !in names && forall j | 0 <= j < k :: Candidate(device, j) in names
  {
    if device.name !in names {
      k := 0;
    } else if device.ip !in names {
      k := 1;
    } else {
      k := FreeSuffix(names, device.ip, 2);
      forall j | 2 <= j < k ensures Candidate(device, j) in names {
        assert Suffixed(device.ip, j) in names;
      }
    }
  }

  // ---------------------------------------------------------------- the node table

  function WithNode(nodes: seq<Node>, device: Device): seq<Node> {
    if device.ip in Ips(nodes) then nodes
    else nodes + [Node(NameFor(Names(nodes), device), device.ip)]
  }

  /** The node table once every device has a node. */
  function Ensured(nodes: seq<Node>, devices: seq<Device>): seq<Node>
    decreases devices
  {
    if devices == [] then nodes else Ensured(WithNode(nodes, devices[0]), devices[1..])
  }

  method EnsureDeviceNodes(before: seq<Node>, devices: seq<Device>) returns (nodes: seq<Node>)
    ensures nodes == Ensured(before, devices)
  {
    nodes := before;
    var nodesByIp: map<string, Node> := map[];
    var names: set<string> := {};
    for i := 0 to |nodes|
      invariant nodesByIp.Keys == Ips(nodes[..i]) && names == Names(nodes[..i])
    {
      assert nodes[..i + 1] == nodes[..i] + [nodes[i]];
      if nodes[i].ip !in nodesByIp {
        nodesByIp := nodesByIp[nodes[i].ip := nodes[i]];
      }
      names := names + {nodes[i].name};
    }
    assert nodes[..|nodes|] == nodes;
    for i := 0 to |devices|
      invariant nodesByIp.Keys == Ips(nodes) && names == Names(nodes)
      invariant Ensured(before, devices) == Ensured(nodes, devices[i..])
    {
      var device := devices[i];
      assert devices[i..][1..] == devices[i + 1..];
      if device.ip in nodesByIp {
        continue;
      }
      var name, tries := ChooseName(names, device);
      var node := Node(name, device.ip);
      nodes := nodes + [node];
      nodesByIp := nodesByIp[device.ip := node];
      names := names + {name};
    }
  }

  ghost predicate DistinctNames(nodes: seq<Node>) {
    forall i, j | 0 <= i < j < |nodes| :: nodes[i].name != nodes[j].name
  }

  /** The addresses of devices that are not known yet, each once, in order. */
  function NewIps(known: set<string>, devices: seq<Device>): seq<string>
    decreases devices
  {
    if devices == [] then []
    else if devices[0].ip in known then NewIps(known, devices[1..])
    else [devices[0].ip] + NewIps(known + {devices[0].ip}, devices[1..])
  }

  /** `NewIps` lists every device address that was not known, and each once. */
  lemma {:induction false} NewIpsAreNew(known: set<string>, devices: seq<Device>)
    ensures forall ip :: ip in NewIps(known, devices) <==> ip !in known && exists d | d in devices :: d.ip == ip
    ensures forall i, j | 0 <= i < j < |NewIps(known, devices)| ::
              NewIps(known, devices)[i] != NewIps(known, devices)[j]
    decreases devices
  {
    if devices != [] {
      assert devices == [devices[0]] + devices[1..];
      NewIpsAreNew(if devices[0].ip in known then known else known + {devices[0].ip}, devices[1..]);
    }
  }

  /** The addresses of a node table, in its order. */
  function IpList(nodes: seq<Node>): seq<string> {
    seq(|nodes|, i requires 0 <= i < |nodes| => nodes[i].ip)
  }

  /** Existing nodes stay as they are, and exactly one node is added for every address that
      had none. */
  lemma {:induction false} EnsuredAddsOnePerAddress(nodes: seq<Node>, devices: seq<Device>)
    ensures nodes <= Ensured(nodes, devices)
    ensures IpList(Ensured(nodes, devices)) == IpList(nodes) + NewIps(Ips(nodes), devices)
    decreases devices
  {
    if devices != [] {
      var next := WithNode(nodes, devices[0]);
      EnsuredAddsOnePerAddress(next, devices[1..]);
      if devices[0].ip !in Ips(nodes) {
        assert Ips(next) == Ips(nodes) + {devices[0].ip};
        assert IpList(next) == IpList(nodes) + [devices[0].ip];
      }
    }
  }

  lemma {:induction false} EnsuredAppend(nodes: seq<Node>, a: seq<Device>, b: seq<Device>)
    ensures Ensured(nodes, a + b) == Ensured(Ensured(nodes, a), b)
    decreases a
  {
    if a == [] {
      assert a + b == b;
    } else {
      assert (a + b)[1..] == a[1..] + b;
      EnsuredAppend(WithNode(nodes, a[0]), a[1..], b);
    }
  }

  /** The first device with an address that has no node gets one of that address, under its first
      candidate that is no node's name by then. */
  lemma FirstDeviceNamesTheNode(nodes: seq<Node>, before: seq<Device>, device: Device, after: seq<Device>)
    requires device.ip !in Ips(nodes) && forall d | d in before :: d.ip != device.ip
    ensures var done, all := Ensured(nodes, before), Ensured(nodes, before + [device] + after);
            && |done| < |all| && all[|done|].ip == device.ip
            && exists k: nat :: all[|done|].name == Candidate(device, k) && Candidate(device, k) !in Names(done)
                 && forall j | 0 <= j < k :: Candidate(device, j) in Names(done)
  {
    var done := Ensured(nodes, before);
    EnsuredAppend(nodes, before + [device], after);
    EnsuredAppend(nodes, before, [device]);
    StillUnknown(nodes, before, device.ip);
    assert Ensured(done, [device]) == WithNode(done, device);
    EnsuredAddsOnePerAddress(WithNode(done, device), after);
    var k := FirstCandidate(Names(done), device);
  }

  lemma {:induction false} StillUnknown(nodes: seq<Node>, devices: seq<Device>, ip: string)
    requires ip !in Ips(nodes) && forall d | d in devices :: d.ip != ip
    ensures ip !in Ips(Ensured(nodes, devices))
    decreases devices
  {
    if devices != [] {
      assert devices[0] in devices;
      StillUnknown(WithNode(nodes, devices[0]), devices[1..], ip);
    }
  }

  /** Names stay distinct. */
  lemma {:induction false} EnsuredNamesAreDistinct(nodes: seq<Node>, devices: seq<Device>)
    requires DistinctNames(nodes)
    ensures DistinctNames(Ensured(nodes, devices))
    decreases devices
  {
    if devices != [] {
      assert forall i | 0 <= i < |nodes| :: nodes[i].name in Names(nodes);
      EnsuredNamesAreDistinct(WithNode(nodes, devices[0]), devices[1..]);
    }
  }

  lemma {:induction false} EnsuredKnows(nodes: seq<Node>, devices: seq<Device>)
    ensures Ips(nodes) <= Ips(Ensured(nodes, devices))
    ensures forall d | d in devices :: d.ip in Ips(Ensured(nodes, devices))
    decreases devices
  {
    if devices != [] {
      var next := WithNode(nodes, devices[0]);
      EnsuredKnows(next, devices[1..]);
      if devices[0].ip !in Ips(nodes) {
        assert next[|nodes|] in next;
      }
      assert devices == [devices[0]] + devices[1..];
    }
  }

  lemma {:induction false} NothingToAdd(nodes: seq<Node>, devices: seq<Device>)
    requires forall d | d in devices :: d.ip in Ips(nodes)
    ensures Ensured(nodes, devices) == nodes
    decreases devices
  {
    if devices != [] {
      assert devices[0] in devices;
      NothingToAdd(nodes, devices[1..]);
    }
  }

  /** A second run adds nothing. */
  lemma SecondRunAddsNothing(nodes: seq<Node>, devices: seq<Device>)
    ensures Ensured(Ensured(nodes, devices), devices) == Ensured(nodes, devices)
  {
    EnsuredKnows(nodes, devices);
    NothingToAdd(Ensured(nodes, devices), devices);
  }
}
