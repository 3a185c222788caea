/** A host on which the nginx reader is led outside `/etc/nginx`: `conf.d` is a link to a directory
    there, and `nginx.conf` includes what it holds (collectors/public_interfaces.py). */
module NginxLinkedDirectory {
  import opened Wrappers
  import opened Text
  import opened NginxParser
  import opened NginxRoundTrip
  import opened VirtualPaths
  import opened Includes
  import opened NginxReader
  import opened HostDisk
  import opened NginxConfinement

  const LINKED := "conf.d"

  const HELD := "a.conf"

  const OUTSIDE := "srv"

  const PATTERN := "conf.d/*.conf"

  const INCLUDING := [Simple("include", [PATTERN])]

  /** A host whose `conf.d` is a link to a directory outside, which holds one file with one directive. */
  ghost predicate HasLinkedDirectory(d: Disk, word: string) {
    && d.root == [] && d.longest >= 4
    && CONFIG in d.nodes && d.nodes[CONFIG] == File(PrintAll(INCLUDING))
    && ROOT + [LINKED] in d.nodes && d.nodes[ROOT + [LINKED]] == Symlink("../../srv")
    && [OUTSIDE] in d.nodes && d.nodes[[OUTSIDE]] == Directory
    && [OUTSIDE, HELD] in d.nodes && d.nodes[[OUTSIDE, HELD]] == File(PrintAll([Simple(word, [])]))
  }

  lemma TreeAdd(nodes: Nodes, directory: Path, name: string, node: Node)
    requires IsTree(nodes) && Plain(name) && directory + [name] !in nodes
    requires directory == [] || (directory in nodes && nodes[directory].Directory?)
    ensures IsTree(nodes[directory + [name] := node])
  {
    var more := nodes[directory + [name] := node];
    forall path | path in more
      ensures path != [] && AllPlain(path)
      ensures |path| > 1 ==> Parent(path) in more && more[Parent(path)].Directory?
    {
      if path == directory + [name] {
        assert Parent(path) == directory;
      }
    }
  }

  /** The tree of a file and a link in a directory of a directory, and of a file in another directory. */
  lemma TreeOf(e: string, n: string, c: string, file: Node, l: string, link: Node, o: string, h: string, held: Node)
    returns (nodes: Nodes)
    requires Plain(e) && Plain(n) && Plain(c) && Plain(l) && Plain(o) && Plain(h) && c != l && e != o
    ensures IsTree(nodes)
    ensures [e, n, c] in nodes && nodes[[e, n, c]] == file && [e, n, l] in nodes && nodes[[e, n, l]] == link
    ensures [o] in nodes && nodes[[o]] == Directory && [o, h] in nodes && nodes[[o, h]] == held
  {
    nodes := TopDirectories(e, o);
    var inner, both := [e] + [n], [o] + [h];
    assert [e, n] == inner && [o, h] == both && inner[0] != both[0];
    TreeAdd(nodes, [e], n, Directory);
    nodes := nodes[inner := Directory];
    TreeAdd(nodes, [o], h, held);
    nodes := nodes[both := held];
    var first, second := inner + [c], inner + [l];
    assert [e, n, c] == first && [e, n, l] == second && first[2] != second[2];
    TreeAdd(nodes, inner, c, file);
    nodes := nodes[first := file];
    TreeAdd(nodes, inner, l, link);
    nodes := nodes[second := link];
  }

  lemma TopDirectories(e: string, o: string) returns (nodes: Nodes)
    requires Plain(e) && Plain(o) && e != o
    ensures IsTree(nodes) && nodes == map[[e] := Directory, [o] := Directory]
  {
    assert [] + [e] == [e] && [] + [o] == [o] && [e][0] != [o][0];
    nodes := map[];
    TreeAdd(nodes, [], e, Directory);
    nodes := nodes[[e] := Directory];
    TreeAdd(nodes, [], o, Directory);
    nodes := nodes[[o] := Directory];
  }

  lemma LinkedNames()
    ensures Plain("etc") && Plain("nginx") && Plain("nginx.conf") && Plain("*.conf")
    ensures Plain(LINKED) && Plain(HELD) && Plain(OUTSIDE)
    ensures "nginx.conf" != LINKED && "etc" != OUTSIDE
  {
    assert |"etc"| == 3 && |OUTSIDE| == 3 && "etc"[0] == 'e' && OUTSIDE[0] == 's';
    assert |"nginx.conf"| == 10 && |LINKED| == 6 && |"*.conf"| == 6 && |"nginx"| == 5 && |HELD| == 6;
  }

  /** There is such a host for every word. */
  lemma LinkedDisk(word: string) returns (d: Disk)
    ensures HasLinkedDirectory(d, word)
  {
    LinkedNames();
    var file, held := File(PrintAll(INCLUDING)), File(PrintAll([Simple(word, [])]));
    var nodes := TreeOf("etc", "nginx", "nginx.conf", file, LINKED, Symlink("../../srv"), OUTSIDE, HELD, held);
    d := Disk(nodes, [], 4);
    assert ROOT + [LINKED] == ["etc", "nginx", LINKED];
  }

  lemma FileReplaced(nodes: Nodes, path: Path, file: Node)
    requires IsTree(nodes) && path in nodes && nodes[path].File? && file.File?
    ensures IsTree(nodes[path := file])
  {
  }

  /** And for every other word one that holds the same below `/etc/nginx`. */
  lemma LinkedDisks(word: string, other: string) returns (a: Disk, b: Disk)
    ensures HasLinkedDirectory(a, word) && HasLinkedDirectory(b, other) && SameNodesBelowRoot(a, b)
  {
    a := LinkedDisk(word);
    LinkedNames();
    var outside := [OUTSIDE, HELD];
    var file := File(PrintAll([Simple(other, [])]));
    FileReplaced(a.nodes, outside, file);
    var nodes := a.nodes[outside := file];
    b := Disk(nodes, [], a.longest);
    forall path: Path | ROOT <= path ensures a.root + path == b.root + path == path && path != outside {
      assert path[0] == ROOT[0] && outside[0] == OUTSIDE;
    }
  }

  lemma TwoParts(a: string, b: string)
    requires '/' !in a && '/' !in b && a != "" && b != "" && a != "." && b != "."
    ensures Components(a + "/" + b) == [a, b]
  {
    ComponentsAppend(a, b);
    OnePart(a);
    OnePart(b);
  }

  lemma OnePart(name: string)
    requires '/' !in name && name != "" && name != "."
    ensures Components(name) == [name]
  {
    SplitWhole(name, '/');
    assert Kept([name]) == [name] + Kept([]);
  }

  lemma TargetParts()
    ensures Components("../../srv") == [".."] + ([".."] + [OUTSIDE])
  {
    ThreeParts("..", "..", OUTSIDE);
    assert ".." + "/" + (".." + "/" + OUTSIDE) == "../../srv";
  }

  lemma ThreeParts(a: string, b: string, c: string)
    requires '/' !in a && '/' !in b && '/' !in c
    requires a != "" && b != "" && c != "" && a != "." && b != "." && c != "."
    ensures Components(a + "/" + (b + "/" + c)) == [a] + ([b] + [c])
  {
    TwoParts(b, c);
    OnePart(a);
    ComponentsAppend(a, b + "/" + c);
  }

  lemma PatternParts()
    ensures Components(PATTERN) == [LINKED, "*.conf"] && !IsAbsolute(PATTERN)
    ensures AllPlain([LINKED, "*.conf"])
  {
    TwoParts(LINKED, "*.conf");
    assert LINKED + "/" + "*.conf" == PATTERN;
    assert PATTERN[0] == 'c';
    LinkedNames();
    BothPlain(LINKED, "*.conf");
  }

  lemma BothPlain(a: string, b: string)
    requires Plain(a) && Plain(b)
    ensures AllPlain([a, b])
  {
  }

  lemma UpUpDown(nodes: Nodes, a: string, b: string, c: string, name: string, links: nat)
    requires c != ".." && name != ".."
    requires [c] in nodes && nodes[[c]].Directory? && [c, name] in nodes
    ensures Walk(nodes, [a, b], ([".."] + ([".."] + [c])) + [name], false, links) == Some([c, name])
  {
    assert ([".."] + ([".."] + [c])) + [name] == [".."] + ([".."] + ([c] + [name]));
    WalkUp(nodes, [a, b], [".."] + ([c] + [name]), links);
    WalkUp(nodes, [a], [c] + [name], links);
    assert Parent([a, b]) == [a] && Parent([a]) == [];
    assert [] + [c] == [c] && [c] + [name] == [c, name];
    WalkStep(nodes, [], c, [name], links);
    WalkLast(nodes, [c], name, links);
  }

  lemma WalkUp(nodes: Nodes, at: Path, parts: seq<string>, links: nat)
    ensures Walk(nodes, at, [".."] + parts, false, links) == Walk(nodes, Parent(at), parts, false, links)
  {
    assert ([".."] + parts)[1..] == parts;
  }

  /** The file outside is what a lookup of the path below the root finds. */
  lemma LinkedLookup(d: Disk, word: string)
    requires HasLinkedDirectory(d, word)
    ensures Lookup(d, ROOT + [LINKED] + [HELD]) == Some(File(PrintAll([Simple(word, [])])))
  {
    var link := ROOT + [LINKED];
    assert d.root + link == link && Parent(link) == ROOT;
    LinkedNames();
    LookupThroughLink(d, link, [HELD]);
    TargetParts();
    RelativeStart();
    UpUpDown(d.nodes, ROOT[0], ROOT[1], OUTSIDE, HELD, MAX_LINKS - 1);
    FoundFile(d, ROOT + [LINKED] + [HELD], [OUTSIDE, HELD]);
  }

  lemma RelativeStart()
    ensures StartOf("../../srv", ROOT) == [ROOT[0], ROOT[1]]
  {
  }

  lemma FoundFile(d: Disk, path: Path, place: Path)
    requires |path| <= d.longest && place in d.nodes
    requires Walk(d.nodes, [], d.root + path, false, MAX_LINKS) == Some(place)
    ensures Lookup(d, path) == Some(d.nodes[place])
  {
  }

  /** A path below the root at which a lookup finds a printed file reads as what was printed. */
  lemma PrintedIsRead(d: Disk, matcher: Matcher, path: Path, ds: seq<Directive>, stack: set<Path>)
    requires ROOT <= path && AllPlain(path) && path !in stack && AllPrintable(ds)
    requires Lookup(d, path) == Some(File(PrintAll(ds)))
    ensures Load(SourceOf(HostOf(d, matcher)), path, stack) == Read(path, ds)
  {
    var h := HostOf(d, matcher);
    ViewIsLookup(d, path);
    SafePath(path);
    assert Follow(h.files, path) == Found(path);
    RoundTrip(ds);
    assert Content(h, path) == Ok(ds);
  }

  /** Of a host whose `conf.d` is a link to `/srv`, the reader reports what `/srv/a.conf` says. */
  lemma LinkedDirectoryLeadsOutside(d: Disk, word: string, matcher: Matcher)
    requires HasLinkedDirectory(d, word) && Printable([word]) && word != "include"
    requires matcher(Below(ViewOf(d)), ROOT + [LINKED, "*.conf"]) == [ROOT + [LINKED] + [HELD]]
    ensures ReadFile(SourceOf(HostOf(d, matcher)), CONFIG, {}).directives == [Simple(word, [])]
  {
    var s := SourceOf(HostOf(d, matcher));
    var behind := ROOT + [LINKED] + [HELD];
    ConfigIsRead(d, word, matcher);
    BehindIsRead(d, word, matcher);
    LinkedMatches(HostOf(d, matcher));
    SplicedInclude(s, word, behind);
  }

  lemma ConfigIsRead(d: Disk, word: string, matcher: Matcher)
    requires HasLinkedDirectory(d, word)
    ensures Load(SourceOf(HostOf(d, matcher)), CONFIG, {}) == Read(CONFIG, INCLUDING)
  {
    assert d.root + CONFIG == CONFIG;
    FoundInPlace(d, CONFIG);
    PrintedIsRead(d, matcher, CONFIG, INCLUDING, {});
  }

  lemma BehindIsRead(d: Disk, word: string, matcher: Matcher)
    requires HasLinkedDirectory(d, word) && Printable([word])
    ensures Load(SourceOf(HostOf(d, matcher)), ROOT + [LINKED] + [HELD], {CONFIG})
         == Read(ROOT + [LINKED] + [HELD], [Simple(word, [])])
  {
    LinkedLookup(d, word);
    PrintedIsRead(d, matcher, ROOT + [LINKED] + [HELD], [Simple(word, [])], {CONFIG});
  }

  lemma SafePath(path: Path)
    requires ROOT <= path && AllPlain(path)
    ensures Safe(path) == Some(path)
  {
    CleanKeepsPlain([], path);
    assert [] + path == path;
  }

  lemma RelativeMatches(h: Host, pattern: string, parts: Path)
    requires !IsAbsolute(pattern) && Components(pattern) == parts && AllPlain(parts)
    ensures PatternMatches(h, pattern) == h.glob(ROOT + parts)
  {
    LinkedNames();
    forall part | part in ROOT + parts ensures Plain(part) {
    }
    SafePath(ROOT + parts);
  }

  lemma LinkedMatches(h: Host)
    ensures PatternMatches(h, PATTERN) == h.glob(ROOT + [LINKED, "*.conf"])
  {
    PatternParts();
    RelativeMatches(h, PATTERN, [LINKED, "*.conf"]);
  }

  lemma SplicedInclude(s: Source, word: string, behind: Path)
    requires word != "include" && s.matches(PATTERN) == [behind]
    requires Load(s, CONFIG, {}) == Read(CONFIG, INCLUDING)
    requires Load(s, behind, {CONFIG}) == Read(behind, [Simple(word, [])])
    ensures ReadFile(s, CONFIG, {}).directives == [Simple(word, [])]
  {
    var read := ReadingUnder(s, {} + {CONFIG});
    assert {} + {CONFIG} == {CONFIG};
    assert Matches(s, [PATTERN]) == [behind] + [] == [behind];
    assert read(behind) == ReadFile(s, behind, {CONFIG});
    var single := [Simple(word, [])];
    assert Splice(s, single, ReadingUnder(s, {CONFIG} + {behind})).directives == single;
    ReadEachSnoc([], behind, read);
    assert [] + [behind] == [behind];
    assert Splice(s, INCLUDING, read).directives == SpliceOne(s, INCLUDING[0], read).directives + [];
  }
}
