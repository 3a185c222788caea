/** The file system below the nginx reader: how the operating system finds what is at a path, going
    through symbolic links in its directories wherever they lead (`is_symlink`, `readlink` and
    `read_text` in collectors/public_interfaces.py, all below `host_root`). */
module HostDisk {
  import opened Wrappers
  import opened Text
  import opened VirtualPaths

  datatype Node = Directory | File(text: string) | Closed | Symlink(target: string)

  type Nodes = map<Path, Node>

  function Parent(path: Path): Path {
    if path == [] then [] else path[..|path| - 1]
  }

  /** Nodes have plain names, and all but the topmost stand in directories. */
  ghost predicate IsTree(nodes: Nodes) {
    forall path | path in nodes ::
      && path != [] && AllPlain(path)
      && (|path| > 1 ==> Parent(path) in nodes && nodes[Parent(path)].Directory?)
  }

  /** `root` is the directory the host is mounted at, `longest` the number of components a path below
      it may have. */
  datatype RawDisk = Disk(nodes: Nodes, root: Path, longest: nat)

  type Disk = d: RawDisk | IsTree(d.nodes) && AllPlain(d.root) witness Disk(map[], [], 0)

  /** The number of links the operating system follows in one lookup. */
  const MAX_LINKS := 40

  /** Walks the components from a directory; the last one, if a link, is followed only on demand. */
  function Walk(nodes: Nodes, at: Path, parts: seq<string>, follow: bool, links: nat): Option<Path>
    decreases links, |parts|
  {
    if parts == [] then Some(at)
    else if parts[0] == ".." then Walk(nodes, Parent(at), parts[1..], follow, links)
    else
      var next := at + [parts[0]];
      if next !in nodes then None
      else if nodes[next].Symlink? && (follow || |parts| > 1) then
        if links == 0 then None
        else
          var target := nodes[next].target;
          Walk(nodes, StartOf(target, at), Components(target) + parts[1..], follow, links - 1)
      else if |parts| > 1 && !nodes[next].Directory? then None
      else Walk(nodes, next, parts[1..], follow, links)
  }

  /** Where the target of a link in `at` starts: an absolute one leaves the mounted host altogether. */
  function StartOf(target: string, at: Path): Path {
    if IsAbsolute(target) then [] else at
  }

  /** What the operating system finds at a path below the mounted host. */
  function Lookup(d: Disk, path: Path): Option<Node> {
    if |path| > d.longest then None
    else
      var found := Walk(d.nodes, [], d.root + path, false, MAX_LINKS);
      if found.Some? && found.value in d.nodes then Some(d.nodes[found.value]) else None
  }

  // ---------------------------------------------------------------- the view of the reader

  function NamesIn(nodes: Nodes): set<string> {
    set path, i | path in nodes && 0 <= i < |path| :: path[i]
  }

  function PathsUpTo(names: set<string>, n: nat): set<Path> {
    if n == 0 then {[]}
    else
      var shorter := PathsUpTo(names, n - 1);
      shorter + set path, name | path in shorter && name in names :: path + [name]
  }

  function EntryOf(node: Node): Entry {
    match node
    case File(text) => Entry.Text(text)
    case Symlink(target) => Link(target)
    case _ => Unreadable
  }

  /** All that lookups find, by path. */
  function ViewOf(d: Disk): Files {
    map path | path in PathsUpTo(NamesIn(d.nodes), d.longest) && Lookup(d, path).Some? ::
      EntryOf(Lookup(d, path).value)
  }

  lemma {:induction false} InPathsUpTo(names: set<string>, n: nat, path: Path)
    requires |path| <= n && forall name | name in path :: name in names
    ensures path in PathsUpTo(names, n)
    decreases n
  {
    if n > 0 {
      if path == [] {
        InPathsUpTo(names, n - 1, path);
      } else {
        var last := path[|path| - 1];
        assert last in path;
        InPathsUpTo(names, n - 1, Parent(path));
        assert path == Parent(path) + [last];
      }
    }
  }

  lemma {:induction false} UpToHasNames(names: set<string>, n: nat, path: Path, name: string)
    requires path in PathsUpTo(names, n) && name in path
    ensures name in names
    decreases n
  {
    if n > 0 && path !in PathsUpTo(names, n - 1) {
      var up, last :| up in PathsUpTo(names, n - 1) && last in names && path == up + [last];
      if name != last {
        UpToHasNames(names, n - 1, up, name);
      }
    } else if n > 0 {
      UpToHasNames(names, n - 1, path, name);
    }
  }

  /** The view holds normal paths only. */
  lemma ViewIsPlain(d: Disk, path: Path)
    requires path in ViewOf(d)
    ensures AllPlain(path)
  {
    forall name | name in path ensures Plain(name) {
      UpToHasNames(NamesIn(d.nodes), d.longest, path, name);
      var place, i :| place in d.nodes && 0 <= i < |place| && place[i] == name;
      assert name in place;
    }
  }

  lemma {:induction false} WalkedNamesExist(
      nodes: Nodes, at: Path, parts: seq<string>, follow: bool, links: nat, name: string)
    requires Walk(nodes, at, parts, follow, links).Some?
    requires name in parts && name != ".."
    ensures name in NamesIn(nodes)
    decreases links, |parts|
  {
    assert parts == [parts[0]] + parts[1..];
    if parts[0] == ".." {
      WalkedNamesExist(nodes, Parent(at), parts[1..], follow, links, name);
    } else {
      var next := at + [parts[0]];
      if name == parts[0] {
        assert next[|at|] == name;
      } else if nodes[next].Symlink? && (follow || |parts| > 1) {
        var target := nodes[next].target;
        WalkedNamesExist(nodes, StartOf(target, at), Components(target) + parts[1..], follow, links - 1, name);
      } else {
        WalkedNamesExist(nodes, next, parts[1..], follow, links, name);
      }
    }
  }

  /** The view is what lookups find. */
  lemma ViewIsLookup(d: Disk, path: Path)
    requires AllPlain(path)
    ensures path in ViewOf(d) <==> Lookup(d, path).Some?
    ensures path in ViewOf(d) ==> ViewOf(d)[path] == EntryOf(Lookup(d, path).value)
  {
    if Lookup(d, path).Some? {
      forall name | name in path ensures name in NamesIn(d.nodes) {
        assert Plain(name) && name in d.root + path;
        WalkedNamesExist(d.nodes, [], d.root + path, false, MAX_LINKS, name);
      }
      InPathsUpTo(NamesIn(d.nodes), d.longest, path);
    }
  }

  // ---------------------------------------------------------------- paths in their own place

  lemma {:induction false} Ancestor(nodes: Nodes, path: Path, k: nat)
    requires IsTree(nodes) && path in nodes && 0 < k < |path|
    ensures path[..k] in nodes && nodes[path[..k]].Directory?
    decreases |path|
  {
    var parent := Parent(path);
    assert parent in nodes && nodes[parent].Directory?;
    if k < |parent| {
      Ancestor(nodes, parent, k);
      assert parent[..k] == path[..k];
    } else {
      assert path[..k] == parent;
    }
  }

  lemma AncestorIsDirectory(nodes: Nodes, at: Path, name: string, rest: Path)
    requires IsTree(nodes) && at + ([name] + rest) in nodes && rest != []
    ensures at + [name] in nodes && nodes[at + [name]].Directory?
  {
    var path := at + ([name] + rest);
    Ancestor(nodes, path, |at| + 1);
    assert path[..|at| + 1] == at + [name];
  }

  /** A walk goes straight down to the last component of a node's own path. */
  lemma {:induction false} WalkDown(nodes: Nodes, at: Path, down: Path, name: string, rest: seq<string>, links: nat)
    requires IsTree(nodes) && at + (down + [name]) in nodes && AllPlain(down)
    ensures Walk(nodes, at, down + ([name] + rest), false, links)
         == Walk(nodes, at + down, [name] + rest, false, links)
    decreases |down|
  {
    if down == [] {
      assert at + down == at && down + ([name] + rest) == [name] + rest;
    } else {
      var first, later := down[0], down[1..];
      assert Plain(first) && down == [first] + later;
      DownOne(at, first, later, name);
      WalkDown(nodes, at + [first], later, name, rest, links);
      WalkDownFrom(nodes, at, first, later, name, rest, links);
    }
  }

  lemma WalkDownFrom(nodes: Nodes, at: Path, first: string, later: Path, name: string, rest: seq<string>, links: nat)
    requires IsTree(nodes) && at + ([first] + (later + [name])) in nodes && first != ".."
    ensures Walk(nodes, at, ([first] + later) + ([name] + rest), false, links)
         == Walk(nodes, at + [first], later + ([name] + rest), false, links)
  {
    AncestorIsDirectory(nodes, at, first, later + [name]);
    WalkStep(nodes, at, first, later + ([name] + rest), links);
    assert ([first] + later) + ([name] + rest) == [first] + (later + ([name] + rest));
  }

  lemma DownOne(at: Path, first: string, later: Path, name: string)
    ensures (at + [first]) + (later + [name]) == at + (([first] + later) + [name]) == at + ([first] + (later + [name]))
    ensures (at + [first]) + later == at + ([first] + later)
  {
  }

  lemma WalkStep(nodes: Nodes, at: Path, first: string, parts: seq<string>, links: nat)
    requires first != ".." && parts != []
    requires at + [first] in nodes && nodes[at + [first]].Directory?
    ensures Walk(nodes, at, [first] + parts, false, links) == Walk(nodes, at + [first], parts, false, links)
  {
    assert ([first] + parts)[1..] == parts;
  }

  lemma Regroup(a: seq<string>, b: seq<string>, c: seq<string>)
    ensures a + (b + c) == (a + b) + c
  {
  }

  /** What lies behind a path is found in the directory that the path leads to. */
  lemma {:induction false} WalkThrough(nodes: Nodes, at: Path, a: seq<string>, b: seq<string>, links: nat)
    requires b != [] && b[0] != ".." && Walk(nodes, at, a + b, false, links).Some?
    ensures Walk(nodes, at, a, true, links).Some?
    ensures Walk(nodes, at, a, true, links).value + [b[0]] in nodes
    decreases links, |a|
  {
    if a == [] {
      assert a + b == b;
    } else {
      assert (a + b)[1..] == a[1..] + b;
      var next := at + [a[0]];
      if a[0] == ".." {
        WalkThrough(nodes, Parent(at), a[1..], b, links);
      } else if nodes[next].Symlink? {
        var target := nodes[next].target;
        Regroup(Components(target), a[1..], b);
        WalkThrough(nodes, StartOf(target, at), Components(target) + a[1..], b, links - 1);
      } else {
        WalkThrough(nodes, next, a[1..], b, links);
      }
    }
  }

  lemma HoldingIsDirectory(nodes: Nodes, place: Path, name: string)
    requires IsTree(nodes) && place != [] && place + [name] in nodes
    ensures place in nodes && nodes[place].Directory?
  {
    assert Parent(place + [name]) == place;
  }

  /** And what the directory holds is found behind the path. */
  lemma {:induction false} WalkOn(nodes: Nodes, at: Path, a: seq<string>, name: string, links: nat)
    requires IsTree(nodes) && name != ".."
    requires Walk(nodes, at, a, true, links).Some? && Walk(nodes, at, a, true, links).value + [name] in nodes
    ensures Walk(nodes, at, a + [name], false, links).Some?
    decreases links, |a|
  {
    if a == [] {
      assert a + [name] == [name] && [name][1..] == [];
    } else {
      assert (a + [name])[1..] == a[1..] + [name];
      var next := at + [a[0]];
      if a[0] == ".." {
        WalkOn(nodes, Parent(at), a[1..], name, links);
      } else if nodes[next].Symlink? {
        var target := nodes[next].target;
        Regroup(Components(target), a[1..], [name]);
        WalkOn(nodes, StartOf(target, at), Components(target) + a[1..], name, links - 1);
      } else {
        if |a| == 1 {
          HoldingIsDirectory(nodes, next, name);
        }
        WalkOn(nodes, next, a[1..], name, links);
      }
    }
  }

  /** Whatever stands before what is found is found too. */
  lemma {:induction false} WalkPrefix(nodes: Nodes, at: Path, a: seq<string>, b: seq<string>, links: nat)
    requires b != [] && Walk(nodes, at, a + b, false, links).Some?
    ensures Walk(nodes, at, a, false, links).Some?
    decreases links, |a|
  {
    if a != [] {
      assert (a + b)[1..] == a[1..] + b;
      var next := at + [a[0]];
      if a[0] == ".." {
        WalkPrefix(nodes, Parent(at), a[1..], b, links);
      } else if |a| == 1 {
        assert Walk(nodes, at, a, false, links) == Walk(nodes, next, a[1..], false, links) == Some(next);
      } else if nodes[next].Symlink? {
        var target := nodes[next].target;
        Regroup(Components(target), a[1..], b);
        WalkPrefix(nodes, StartOf(target, at), Components(target) + a[1..], b, links - 1);
      } else {
        WalkPrefix(nodes, next, a[1..], b, links);
      }
    }
  }

  /** A walk that ends with a name ends at a node. */
  lemma {:induction false} WalkEnds(nodes: Nodes, at: Path, parts: seq<string>, name: string, links: nat)
    requires name != ".." && Walk(nodes, at, parts + [name], false, links).Some?
    ensures Walk(nodes, at, parts + [name], false, links).value in nodes
    decreases links, |parts|
  {
    if parts == [] {
      assert parts + [name] == [name] && [name][1..] == [];
    } else {
      assert (parts + [name])[1..] == parts[1..] + [name];
      var next := at + [parts[0]];
      if parts[0] == ".." {
        WalkEnds(nodes, Parent(at), parts[1..], name, links);
      } else if nodes[next].Symlink? {
        var target := nodes[next].target;
        Regroup(Components(target), parts[1..], [name]);
        WalkEnds(nodes, StartOf(target, at), Components(target) + parts[1..], name, links - 1);
      } else {
        WalkEnds(nodes, next, parts[1..], name, links);
      }
    }
  }

  // ---------------------------------------------------------------- paths in their own place

  /** The directory, if any, that a link below the mounted host leads to, when a lookup goes through it. */
  function LeadsTo(d: Disk, link: Path): Option<Path>
    requires d.root + link in d.nodes && d.nodes[d.root + link].Symlink?
  {
    var target, place := d.nodes[d.root + link].target, d.root + link;
    Walk(d.nodes, StartOf(target, Parent(place)), Components(target), true, MAX_LINKS - 1)
  }

  ghost predicate Holds(nodes: Nodes, directory: Path, name: string) {
    directory + [name] in nodes
  }

  /** What lookups below the root find, they find at its own path. */
  ghost predicate InPlace(d: Disk) {
    forall path: Path | ROOT <= path && AllPlain(path) && Lookup(d, path).Some? :: d.root + path in d.nodes
  }

  /** If the root is found at all, then at its own path. */
  predicate RootInPlace(d: Disk) {
    Lookup(d, ROOT).Some? ==> d.root + ROOT in d.nodes
  }

  /** No link below the root leads to a directory that holds anything. */
  ghost predicate LinksHoldNothing(d: Disk) {
    forall link: Path | IsLinkBelow(d, link) && LeadsTo(d, link).Some? ::
      forall name: string :: !Holds(d.nodes, LeadsTo(d, link).value, name)
  }

  ghost predicate IsLinkBelow(d: Disk, link: Path) {
    ROOT <= link && |link| < d.longest && d.root + link in d.nodes && d.nodes[d.root + link].Symlink?
  }

  lemma LastName(path: Path) returns (up: Path, name: string)
    requires path != [] && AllPlain(path)
    ensures path == up + [name] && AllPlain(up) && Plain(name)
  {
    up, name := Parent(path), path[|path| - 1];
    assert name in path;
    forall part | part in up ensures Plain(part) {
      assert part in path;
    }
  }

  /** One step to a last component that is not followed. */
  lemma WalkLast(nodes: Nodes, at: Path, name: string, links: nat)
    requires name != ".." && at + [name] in nodes
    ensures Walk(nodes, at, [name], false, links) == Some(at + [name])
  {
    assert [name][1..] == [];
  }

  /** One step to a link that is followed. */
  lemma WalkLink(nodes: Nodes, at: Path, name: string, rest: seq<string>, links: nat)
    requires name != ".." && rest != [] && links > 0
    requires at + [name] in nodes && nodes[at + [name]].Symlink?
    ensures var target := nodes[at + [name]].target;
            Walk(nodes, at, [name] + rest, false, links)
            == Walk(nodes, StartOf(target, at), Components(target) + rest, false, links - 1)
  {
    assert ([name] + rest)[1..] == rest;
  }

  lemma PlaceOf(d: Disk, up: Path, name: string)
    ensures d.root + (up + [name]) == [] + ((d.root + up) + [name])
    ensures Parent(d.root + (up + [name])) == d.root + up == [] + (d.root + up)
  {
    assert d.root + (up + [name]) == (d.root + up) + [name];
  }

  lemma RegroupFour(a: Path, b: Path, c: Path, e: Path)
    ensures a + ((b + c) + e) == (a + b) + (c + e)
  {
  }

  /** A lookup that comes to a node at its own path. */
  lemma LookupDown(d: Disk, up: Path, name: string, rest: seq<string>)
    requires AllPlain(up + [name]) && d.root + (up + [name]) in d.nodes
    ensures Walk(d.nodes, [], d.root + ((up + [name]) + rest), false, MAX_LINKS)
         == Walk(d.nodes, d.root + up, [name] + rest, false, MAX_LINKS)
  {
    PlaceOf(d, up, name);
    assert forall part | part in up :: part in up + [name];
    WalkDown(d.nodes, [], d.root + up, name, rest, MAX_LINKS);
    RegroupFour(d.root, up, [name], rest);
  }

  /** What stands at its own path is found there. */
  lemma FoundInPlace(d: Disk, path: Path)
    requires path != [] && AllPlain(path) && |path| <= d.longest && d.root + path in d.nodes
    ensures Lookup(d, path) == Some(d.nodes[d.root + path])
  {
    var up, name := LastName(path);
    LookupDown(d, up, name, []);
    assert (up + [name]) + [] == path && [name] + [] == [name];
    PlaceOf(d, up, name);
    assert (d.root + up) + [name] == d.root + path;
    WalkLast(d.nodes, d.root + up, name, MAX_LINKS);
  }

  /** Behind a link at its own path, a lookup goes on at the target. */
  lemma LookupThroughLink(d: Disk, link: Path, rest: seq<string>)
    requires link != [] && AllPlain(link) && rest != []
    requires d.root + link in d.nodes && d.nodes[d.root + link].Symlink?
    ensures var target, place := d.nodes[d.root + link].target, d.root + link;
            Walk(d.nodes, [], d.root + (link + rest), false, MAX_LINKS)
            == Walk(d.nodes, StartOf(target, Parent(place)), Components(target) + rest, false, MAX_LINKS - 1)
  {
    var up, name := LastName(link);
    LookupDown(d, up, name, rest);
    PlaceOf(d, up, name);
    assert (d.root + up) + [name] == d.root + link;
    WalkLink(d.nodes, d.root + up, name, rest, MAX_LINKS);
  }

  /** The last node on the way down to a path at which there is none. */
  lemma LastNode(d: Disk, path: Path, k: nat) returns (j: nat)
    requires 0 < k <= |path| && d.root + path[..k] in d.nodes && d.root + path !in d.nodes
    ensures k <= j < |path| && d.root + path[..j] in d.nodes && d.root + path[..j + 1] !in d.nodes
  {
    assert path[..|path|] == path;
    j := k;
    while d.root + path[..j + 1] in d.nodes
      invariant k <= j < |path| && d.root + path[..j] in d.nodes
      decreases |path| - j
    {
      j := j + 1;
    }
  }

  /** A lookup goes on behind the last node at its own path only if this is a link, and then finds
      something in the directory it leads to. */
  lemma FoundBehind(d: Disk, node: Path, rest: seq<string>)
    requires node != [] && AllPlain(node + rest) && rest != []
    requires d.root + node in d.nodes && d.root + (node + [rest[0]]) !in d.nodes
    requires Lookup(d, node + rest).Some?
    ensures d.nodes[d.root + node].Symlink?
    ensures LeadsTo(d, node).Some? && Holds(d.nodes, LeadsTo(d, node).value, rest[0])
  {
    assert rest[0] in node + rest;
    assert forall part | part in node :: part in node + rest;
    if d.nodes[d.root + node].Symlink? {
      var target, place := d.nodes[d.root + node].target, d.root + node;
      LookupThroughLink(d, node, rest);
      WalkThrough(d.nodes, StartOf(target, Parent(place)), Components(target), rest, MAX_LINKS - 1);
    } else {
      NothingBehind(d, node, rest);
    }
  }

  lemma NothingBehind(d: Disk, node: Path, rest: seq<string>)
    requires node != [] && AllPlain(node) && rest != [] && rest[0] != ".."
    requires d.root + node in d.nodes && d.root + (node + [rest[0]]) !in d.nodes
    requires !d.nodes[d.root + node].Symlink?
    ensures Lookup(d, node + rest).None?
  {
    var up, name := LastName(node);
    LookupDown(d, up, name, rest);
    assert (d.root + up) + [name] == d.root + node;
    assert (d.root + node) + [rest[0]] == d.root + (node + [rest[0]]);
    WalkStops(d.nodes, d.root + up, name, rest, MAX_LINKS);
  }

  lemma WalkStops(nodes: Nodes, at: Path, name: string, rest: seq<string>, links: nat)
    requires name != ".." && rest != [] && rest[0] != ".."
    requires at + [name] in nodes && !nodes[at + [name]].Symlink?
    requires (at + [name]) + [rest[0]] !in nodes
    ensures Walk(nodes, at, [name] + rest, false, links).None?
  {
    assert ([name] + rest)[1..] == rest;
  }

  lemma RootFound(d: Disk, path: Path)
    requires ROOT <= path && Lookup(d, path).Some?
    ensures Lookup(d, ROOT).Some?
  {
    var rest := path[|ROOT|..];
    assert path == ROOT + rest;
    if rest != [] {
      assert d.root + path == (d.root + ROOT) + rest;
      WalkPrefix(d.nodes, [], d.root + ROOT, rest, MAX_LINKS);
      assert d.root + ROOT == (d.root + ["etc"]) + ["nginx"];
      WalkEnds(d.nodes, [], d.root + ["etc"], "nginx", MAX_LINKS);
    } else {
      assert path == ROOT;
    }
  }

  /** Everything found below the root is found at its own path exactly when this holds of the root and
      no link below it leads to a directory that holds anything. */
  lemma InPlaceExactly(d: Disk)
    ensures InPlace(d) <==> RootInPlace(d) && LinksHoldNothing(d)
  {
    if RootInPlace(d) && LinksHoldNothing(d) {
      forall path: Path | ROOT <= path && AllPlain(path) && Lookup(d, path).Some? ensures d.root + path in d.nodes {
        if d.root + path !in d.nodes {
          FoundElsewhere(d, path);
        }
      }
    }
    if InPlace(d) {
      assert AllPlain(ROOT);
      forall link: Path, name: string | IsLinkBelow(d, link) && LeadsTo(d, link).Some?
        ensures !Holds(d.nodes, LeadsTo(d, link).value, name)
      {
        if Holds(d.nodes, LeadsTo(d, link).value, name) {
          FoundThroughLink(d, link, name);
        }
      }
    }
  }

  lemma FoundElsewhere(d: Disk, path: Path)
    requires RootInPlace(d) && ROOT <= path && AllPlain(path)
    requires Lookup(d, path).Some? && d.root + path !in d.nodes
    ensures !LinksHoldNothing(d)
  {
    RootFound(d, path);
    assert path[..|ROOT|] == ROOT;
    var j := LastNode(d, path, |ROOT|);
    var link, rest := path[..j], path[j..];
    assert path == link + rest && path[..j + 1] == link + [rest[0]];
    FoundBehind(d, link, rest);
    assert ROOT <= link;
    assert IsLinkBelow(d, link);
  }

  lemma FoundThroughLink(d: Disk, link: Path, name: string)
    requires IsLinkBelow(d, link) && LeadsTo(d, link).Some? && Holds(d.nodes, LeadsTo(d, link).value, name)
    ensures !InPlace(d)
  {
    var path := link + [name];
    ThroughLink(d, link, name);
    var held := LeadsTo(d, link).value + [name];
    assert name in held && Plain(name);
    forall part | part in link ensures Plain(part) {
      assert part in d.root + link;
    }
    assert Parent(d.root + path) == d.root + link;
  }

  lemma ThroughLink(d: Disk, link: Path, name: string)
    requires IsLinkBelow(d, link) && LeadsTo(d, link).Some? && Holds(d.nodes, LeadsTo(d, link).value, name)
    ensures Lookup(d, link + [name]).Some?
  {
    var target, place := d.nodes[d.root + link].target, d.root + link;
    var held := LeadsTo(d, link).value + [name];
    assert name in held && Plain(name);
    forall part | part in link ensures Plain(part) {
      assert part in place;
    }
    WalkOn(d.nodes, StartOf(target, Parent(place)), Components(target), name, MAX_LINKS - 1);
    LookupThroughLink(d, link, [name]);
    WalkEnds(d.nodes, StartOf(target, Parent(place)), Components(target), name, MAX_LINKS - 1);
  }

  // ---------------------------------------------------------------- links in their own place

  /** Walking the components from a directory at the given depth never climbs out above the top. */
  predicate StaysBelow(depth: nat, parts: seq<string>)
    decreases |parts|
  {
    parts == [] ||
    if parts[0] == ".." then depth > 0 && StaysBelow(depth - 1, parts[1..]) else StaysBelow(depth + 1, parts[1..])
  }

  /** Parts that are names or `..`. */
  ghost predicate Walkable(parts: seq<string>) {
    forall part | part in parts :: Plain(part) || part == ".."
  }

  /** Where no link is on the way, a walk leads where normalising leads. */
  lemma {:induction false} WalkIsClean(d: Disk, at: Path, parts: seq<string>)
    requires Walkable(parts) && (d.root == [] || StaysBelow(|at|, parts))
    requires Walk(d.nodes, d.root + at, parts, false, 0).Some?
    ensures Walk(d.nodes, d.root + at, parts, false, 0) == Some(d.root + Clean(at, parts))
    decreases |parts|
  {
    if parts != [] {
      assert parts == [parts[0]] + parts[1..] && parts[0] in parts;
      assert forall part | part in parts[1..] :: part in parts;
      if parts[0] == ".." {
        ParentBelow(d, at);
        WalkIsClean(d, Parent(at), parts[1..]);
      } else {
        assert (d.root + at) + [parts[0]] == d.root + (at + [parts[0]]);
        WalkIsClean(d, at + [parts[0]], parts[1..]);
      }
    }
  }

  lemma ParentBelow(d: Disk, at: Path)
    requires d.root == [] || at != []
    ensures Parent(d.root + at) == d.root + Parent(at)
  {
    if d.root == [] {
      assert d.root + at == at && d.root + Parent(at) == Parent(at);
    }
  }

  lemma ComponentsWalkable(s: string)
    ensures Walkable(Components(s))
  {
    SplitHasNone(s, '/');
    KeptIsWalkable(Split(s, '/'));
  }

  lemma {:induction false} KeptIsWalkable(parts: seq<string>)
    requires forall part | part in parts :: '/' !in part
    ensures Walkable(Kept(parts))
  {
    if parts != [] {
      assert parts[0] in parts;
      assert forall part | part in parts[1..] :: part in parts;
      KeptIsWalkable(parts[1..]);
    }
  }

  /** A relative link is taken where the operating system would walk to from its directory, if no further
      link is on that way and it does not leave the mounted host. */
  lemma HopIsWalk(d: Disk, path: Path, end: Path)
    requires ROOT <= path && AllPlain(path) && |path| <= d.longest
    requires d.root + path in d.nodes && d.nodes[d.root + path].Symlink?
    requires var target := d.nodes[d.root + path].target;
             && !IsAbsolute(target)
             && (d.root == [] || StaysBelow(|Parent(path)|, Components(target)))
             && Walk(d.nodes, Parent(d.root + path), Components(target), false, 0) == Some(d.root + end)
    ensures IsLink(ViewOf(d), path)
    ensures Hop(ViewOf(d), path) == if ROOT <= end then Some(end) else None
  {
    var target := d.nodes[d.root + path].target;
    FoundInPlace(d, path);
    ViewIsLookup(d, path);
    ComponentsWalkable(target);
    ParentBelow(d, path);
    WalkIsClean(d, Parent(path), Components(target));
    SameEnd(d.root, end, Clean(Parent(path), Components(target)));
    NormalizeBelow(Parent(path), Components(target));
  }

  /** So is an absolute one on a host that is not mounted elsewhere. */
  lemma AbsoluteHopIsWalk(d: Disk, path: Path, end: Path)
    requires ROOT <= path && AllPlain(path) && |path| <= d.longest && d.root == []
    requires path in d.nodes && d.nodes[path].Symlink? && IsAbsolute(d.nodes[path].target)
    requires Walk(d.nodes, [], Components(d.nodes[path].target), false, 0) == Some(end)
    ensures IsLink(ViewOf(d), path)
    ensures Hop(ViewOf(d), path) == if ROOT <= end then Some(end) else None
  {
    var target := d.nodes[path].target;
    assert d.root + path == path && d.root + [] == [] && d.root + end == end;
    FoundInPlace(d, path);
    ViewIsLookup(d, path);
    ComponentsWalkable(target);
    WalkIsClean(d, [], Components(target));
    assert d.root + Clean([], Components(target)) == Clean([], Components(target));
  }

  lemma SameEnd(root: Path, a: Path, b: Path)
    requires root + a == root + b
    ensures a == b
  {
    assert (root + a)[|root|..] == a && (root + b)[|root|..] == b;
  }

  lemma NormalizeBelow(path: Path, parts: seq<string>)
    requires AllPlain(path)
    ensures Normalize(path + parts) == Clean(path, parts)
  {
    CleanAppend([], path, parts);
    CleanKeepsPlain([], path);
    assert [] + path == path;
  }
}
