/** The include graph behind `ReadFile`: when recursion is reported, and what expansion is
    when it is not. */
module NginxIncludeGraph {
  import opened Wrappers
  import opened NginxParser
  import opened VirtualPaths
  import opened Includes

  // ---------------------------------------------------------------- the graph

  /** The paths that include directives match, at any depth. */
  function TargetsOf(s: Source, d: Directive): seq<Path> {
    if d.name == "include" then Matches(s, d.arguments)
    else if d.Block? then Targets(s, d.children)
    else []
  }

  function Targets(s: Source, ds: seq<Directive>): seq<Path> {
    if ds == [] then [] else TargetsOf(s, ds[0]) + Targets(s, ds[1..])
  }

  /** The file a virtual path stands for once its links are followed. */
  function Resolved(s: Source, path: Path): Option<Path> {
    match s.locate(path)
    case Found(file) => Some(file)
    case _ => None
  }

  function Included(s: Source, path: Path): seq<Path> {
    match Load(s, path, {})
    case Read(_, directives) => Targets(s, directives)
    case _ => []
  }

  /** A walk along include directives. */
  ghost predicate Walk(s: Source, paths: seq<Path>) {
    paths != [] && forall i | 0 < i < |paths| :: paths[i] in Included(s, paths[i - 1])
  }

  /** The walk ends at a file of `stack` or one it has been through. */
  ghost predicate Returns(s: Source, paths: seq<Path>, stack: set<Path>)
    requires paths != []
  {
    var end := Resolved(s, paths[|paths| - 1]);
    end.Some? && (end.value in stack || exists i | 0 <= i < |paths| - 1 :: Resolved(s, paths[i]) == end)
  }

  ghost predicate ReportsRecursion(e: Expansion) {
    exists w | w in e.warnings :: w.cause == RecursiveInclude
  }

  ghost predicate Recursive(s: Source, path: Path, stack: set<Path>) {
    ReportsRecursion(ReadFile(s, path, stack))
  }

  // ---------------------------------------------------------------- splicing, by target

  lemma {:induction false} ReadEachWarnings(paths: seq<Path>, read: Reading, w: Warning)
    ensures w in ReadEach(paths, read).warnings <==> exists p | p in paths :: w in read(p).warnings
  {
    if paths != [] {
      ReadEachWarnings(paths[1..], read, w);
      assert paths == [paths[0]] + paths[1..];
    }
  }

  /** The warnings of a splice are those of its targets. */
  lemma {:induction false} SpliceWarnings(s: Source, ds: seq<Directive>, read: Reading, w: Warning)
    ensures w in Splice(s, ds, read).warnings <==> exists p | p in Targets(s, ds) :: w in read(p).warnings
    decreases ds
  {
    if ds == [] {
      return;
    }
    var d := ds[0];
    if d.name == "include" {
      ReadEachWarnings(Matches(s, d.arguments), read, w);
    } else if d.Block? {
      SpliceWarnings(s, d.children, read, w);
    }
    SpliceWarnings(s, ds[1..], read, w);
    assert forall p :: p in Targets(s, ds) <==> p in TargetsOf(s, d) || p in Targets(s, ds[1..]);
  }

  lemma {:induction false} ReadEachAgrees(paths: seq<Path>, a: Reading, b: Reading)
    requires forall p | p in paths :: a(p) == b(p)
    ensures ReadEach(paths, a) == ReadEach(paths, b)
  {
    if paths != [] {
      ReadEachAgrees(paths[1..], a, b);
    }
  }

  /** A splice depends on nothing but what its targets read as. */
  lemma {:induction false} SpliceAgrees(s: Source, ds: seq<Directive>, a: Reading, b: Reading)
    requires forall p | p in Targets(s, ds) :: a(p) == b(p)
    ensures Splice(s, ds, a) == Splice(s, ds, b)
    decreases ds
  {
    if ds == [] {
      return;
    }
    var d := ds[0];
    assert forall p :: p in Targets(s, ds) <==> p in TargetsOf(s, d) || p in Targets(s, ds[1..]);
    if d.name == "include" {
      ReadEachAgrees(Matches(s, d.arguments), a, b);
    } else if d.Block? {
      SpliceAgrees(s, d.children, a, b);
    }
    SpliceAgrees(s, ds[1..], a, b);
  }

  // ---------------------------------------------------------------- recursion is reported for a return

  /** A walk that goes on until it first comes back. */
  ghost predicate FirstReturn(s: Source, paths: seq<Path>, stack: set<Path>)
    decreases |paths|
  {
    && paths != []
    && Resolved(s, paths[0]).Some?
    && var file := Resolved(s, paths[0]).value;
       if file in stack then |paths| == 1
       else |paths| > 1 && paths[1] in Included(s, paths[0]) && FirstReturn(s, paths[1..], stack + {file})
  }

  lemma {:induction false} ReturnIsReported(s: Source, paths: seq<Path>, stack: set<Path>)
    requires FirstReturn(s, paths, stack)
    ensures ReportsRecursion(ReadFile(s, paths[0], stack))
    decreases |paths|
  {
    var loaded := Load(s, paths[0], stack);
    var file := Resolved(s, paths[0]).value;
    if file in stack {
      assert Warning(NameOf(paths[0]), RecursiveInclude) in ReadFile(s, paths[0], stack).warnings;
    } else {
      ReturnIsReported(s, paths[1..], stack + {file});
      var below := ReadingUnder(s, stack + {file});
      var w :| w in below(paths[1]).warnings && w.cause == RecursiveInclude;
      SpliceWarnings(s, loaded.directives, below, w);
    }
  }

  lemma {:induction false} ReportIsReturn(s: Source, path: Path, stack: set<Path>) returns (paths: seq<Path>)
    requires ReportsRecursion(ReadFile(s, path, stack))
    ensures FirstReturn(s, paths, stack) && paths[0] == path
    decreases Unvisited(s, stack)
  {
    var loaded := Load(s, path, stack);
    if !loaded.Read? {
      return [path];
    }
    Entering(s, path, stack);
    var next := ReportedBelow(s, path, stack);
    var rest := ReportIsReturn(s, next, stack + {loaded.resolved});
    paths := [path] + rest;
    assert paths[1..] == rest;
  }

  lemma ReportedBelow(s: Source, path: Path, stack: set<Path>) returns (next: Path)
    requires Load(s, path, stack).Read? && ReportsRecursion(ReadFile(s, path, stack))
    ensures next in Included(s, path)
    ensures ReportsRecursion(ReadFile(s, next, stack + {Load(s, path, stack).resolved}))
  {
    var loaded := Load(s, path, stack);
    var below := ReadingUnder(s, stack + {loaded.resolved});
    var w :| w in ReadFile(s, path, stack).warnings && w.cause == RecursiveInclude;
    SpliceWarnings(s, loaded.directives, below, w);
    next :| next in Targets(s, loaded.directives) && w in below(next).warnings;
  }

  lemma {:induction false} WalkHasFirstReturn(s: Source, paths: seq<Path>, stack: set<Path>)
    returns (first: seq<Path>)
    requires Walk(s, paths) && Returns(s, paths, stack)
    ensures FirstReturn(s, first, stack) && first[0] == paths[0]
    decreases |paths|
  {
    if |paths| > 1 {
      assert paths[1] in Included(s, paths[0]);
    }
    var file := Resolved(s, paths[0]).value;
    if file in stack {
      return [paths[0]];
    }
    var tail := paths[1..];
    var end := Resolved(s, paths[|paths| - 1]);
    assert Walk(s, tail) by {
      forall i | 0 < i < |tail| ensures tail[i] in Included(s, tail[i - 1]) {
        assert paths[i + 1] in Included(s, paths[i]);
      }
    }
    assert Returns(s, tail, stack + {file}) by {
      if end.value !in stack + {file} {
        var i :| 0 <= i < |paths| - 1 && Resolved(s, paths[i]) == end;
        assert Resolved(s, tail[i - 1]) == end;
      }
    }
    var rest := WalkHasFirstReturn(s, tail, stack + {file});
    first := [paths[0]] + rest;
    assert first[1..] == rest;
  }

  lemma {:induction false} FirstReturnIsWalk(s: Source, paths: seq<Path>, stack: set<Path>)
    requires FirstReturn(s, paths, stack)
    ensures Walk(s, paths) && Returns(s, paths, stack)
    decreases |paths|
  {
    var file := Resolved(s, paths[0]).value;
    if file in stack {
      return;
    }
    var tail := paths[1..];
    FirstReturnIsWalk(s, tail, stack + {file});
    forall i | 0 < i < |paths| ensures paths[i] in Included(s, paths[i - 1]) {
      if i > 1 {
        assert tail[i - 1] in Included(s, tail[i - 2]);
      }
    }
    var end := Resolved(s, tail[|tail| - 1]);
    if end.value !in stack {
      if end.value == file {
        assert Resolved(s, paths[0]) == end;
      } else {
        var i :| 0 <= i < |tail| - 1 && Resolved(s, tail[i]) == end;
        assert Resolved(s, paths[i + 1]) == end;
      }
    }
  }

  /** Recursion is reported exactly when some walk of includes comes back to a file it has
      been through. */
  lemma RecursionIsACycle(s: Source, path: Path)
    ensures ReportsRecursion(ReadFile(s, path, {}))
       <==> exists paths: seq<Path> :: Walk(s, paths) && paths[0] == path && Returns(s, paths, {})
  {
    if ReportsRecursion(ReadFile(s, path, {})) {
      var paths := ReportIsReturn(s, path, {});
      FirstReturnIsWalk(s, paths, {});
    }
    forall paths: seq<Path> | Walk(s, paths) && paths[0] == path && Returns(s, paths, {})
      ensures ReportsRecursion(ReadFile(s, path, {}))
    {
      var first := WalkHasFirstReturn(s, paths, {});
      ReturnIsReported(s, first, {});
    }
  }

  // ---------------------------------------------------------------- one report for each return

  function Reports(warnings: seq<Warning>): nat {
    if warnings == [] then 0
    else (if warnings[0].cause == RecursiveInclude then 1 else 0) + Reports(warnings[1..])
  }

  /** The walk that takes, file by file, the include match of the given number, so that a file matched
      twice is entered twice, comes back for the first time at its end. */
  ghost predicate FirstReturnBy(s: Source, path: Path, choices: seq<nat>, stack: set<Path>)
    decreases |choices|
  {
    && Resolved(s, path).Some?
    && var file := Resolved(s, path).value;
       if file in stack then choices == []
       else
         && choices != [] && choices[0] < |Included(s, path)|
         && FirstReturnBy(s, Included(s, path)[choices[0]], choices[1..], stack + {file})
  }

  lemma {:induction false} ReportsAppend(a: seq<Warning>, b: seq<Warning>)
    ensures Reports(a + b) == Reports(a) + Reports(b)
  {
    if a == [] {
      assert a + b == b;
    } else {
      assert (a + b)[1..] == a[1..] + b;
      ReportsAppend(a[1..], b);
    }
  }

  /** The warnings of a splice are those of its targets, one after the other. */
  lemma {:induction false} WarningsInOrder(s: Source, ds: seq<Directive>, read: Reading)
    ensures Splice(s, ds, read).warnings == ReadEach(Targets(s, ds), read).warnings
    decreases ds
  {
    if ds != [] {
      if ds[0].name != "include" && ds[0].Block? {
        WarningsInOrder(s, ds[0].children, read);
      }
      WarningsInOrder(s, ds[1..], read);
      ReadEachAppend(TargetsOf(s, ds[0]), Targets(s, ds[1..]), read);
    }
  }

  ghost function Behind(k: nat, walks: set<seq<nat>>): set<seq<nat>> {
    set walk | walk in walks :: [k] + walk
  }

  lemma {:induction false} BehindAsMany(k: nat, walks: set<seq<nat>>)
    ensures |Behind(k, walks)| == |walks|
    decreases |walks|
  {
    if walks != {} {
      var walk :| walk in walks;
      var rest := walks - {walk};
      BehindAsMany(k, rest);
      assert Behind(k, walks) == Behind(k, rest) + {[k] + walk};
      assert [k] + walk !in Behind(k, rest) by {
        forall other | other in rest ensures [k] + other != [k] + walk {
          assert ([k] + other)[1..] == other && ([k] + walk)[1..] == walk;
        }
      }
    }
  }

  /** The walks that begin with one of the first `n` of `paths`. */
  ghost predicate ReturnsAmong(s: Source, paths: seq<Path>, n: nat, stack: set<Path>, walk: seq<nat>)
    requires n <= |paths|
  {
    walk != [] && walk[0] < n && FirstReturnBy(s, paths[walk[0]], walk[1..], stack)
  }

  ghost predicate AreReturnsAmong(s: Source, paths: seq<Path>, n: nat, stack: set<Path>, walks: set<seq<nat>>)
    requires n <= |paths|
  {
    forall walk: seq<nat> :: walk in walks <==> ReturnsAmong(s, paths, n, stack, walk)
  }

  ghost predicate AreReturns(s: Source, path: Path, stack: set<Path>, walks: set<seq<nat>>) {
    forall walk: seq<nat> :: walk in walks <==> FirstReturnBy(s, path, walk, stack)
  }

  lemma ReturnsMore(s: Source, paths: seq<Path>, n: nat, stack: set<Path>, walks: set<seq<nat>>, more: set<seq<nat>>)
    requires n < |paths| && AreReturnsAmong(s, paths, n, stack, walks)
    requires AreReturns(s, paths[n], stack, more)
    ensures AreReturnsAmong(s, paths, n + 1, stack, walks + Behind(n, more))
    ensures |walks + Behind(n, more)| == |walks| + |more|
  {
    BehindAsMany(n, more);
    var all := walks + Behind(n, more);
    forall walk: seq<nat> ensures walk in all <==> ReturnsAmong(s, paths, n + 1, stack, walk) {
      if walk in Behind(n, more) {
        var rest :| rest in more && walk == [n] + rest;
        assert walk[1..] == rest;
      }
      if ReturnsAmong(s, paths, n + 1, stack, walk) && walk[0] == n {
        assert walk == [n] + walk[1..];
      }
    }
    assert walks !! Behind(n, more);
  }

  function ReportsAmong(s: Source, paths: seq<Path>, n: nat, stack: set<Path>): nat
    requires n <= |paths|
  {
    Reports(ReadEach(paths[..n], ReadingUnder(s, stack)).warnings)
  }

  lemma ReportsMore(s: Source, paths: seq<Path>, n: nat, stack: set<Path>)
    requires n < |paths|
    ensures ReportsAmong(s, paths, n + 1, stack)
         == ReportsAmong(s, paths, n, stack) + Reports(ReadFile(s, paths[n], stack).warnings)
  {
    var read := ReadingUnder(s, stack);
    PrefixNext(paths, n);
    ReadEachSnoc(paths[..n], paths[n], read);
    ReportsAppend(ReadEach(paths[..n], read).warnings, read(paths[n]).warnings);
  }

  lemma {:induction false} CountEach(s: Source, paths: seq<Path>, n: nat, stack: set<Path>)
    returns (walks: set<seq<nat>>)
    requires n <= |paths|
    ensures AreReturnsAmong(s, paths, n, stack, walks)
    ensures |walks| == ReportsAmong(s, paths, n, stack)
    decreases Unvisited(s, stack), 1, n
  {
    if n == 0 {
      return {};
    }
    var before := CountEach(s, paths, n - 1, stack);
    var more := RecursionIsCounted(s, paths[n - 1], stack);
    ReturnsMore(s, paths, n - 1, stack, before, more);
    ReportsMore(s, paths, n - 1, stack);
    walks := before + Behind(n - 1, more);
  }

  /** There are as many recursion warnings as walks that come back for the first time at their end,
      counted with multiplicity. */
  lemma {:induction false} RecursionIsCounted(s: Source, path: Path, stack: set<Path>) returns (walks: set<seq<nat>>)
    ensures AreReturns(s, path, stack, walks)
    ensures |walks| == Reports(ReadFile(s, path, stack).warnings)
    decreases Unvisited(s, stack), 0
  {
    var loaded := Load(s, path, stack);
    if !loaded.Read? {
      walks := CountUnread(s, path, stack);
      return;
    }
    Entering(s, path, stack);
    var targets := Included(s, path);
    walks := CountEach(s, targets, |targets|, stack + {loaded.resolved});
    CountInside(s, path, stack, walks);
  }

  lemma CountUnread(s: Source, path: Path, stack: set<Path>) returns (walks: set<seq<nat>>)
    requires !Load(s, path, stack).Read?
    ensures AreReturns(s, path, stack, walks)
    ensures |walks| == Reports(ReadFile(s, path, stack).warnings)
  {
    walks := if Load(s, path, stack) == Failed(RecursiveInclude) then {[]} else {};
  }

  lemma CountInside(s: Source, path: Path, stack: set<Path>, walks: set<seq<nat>>)
    requires Load(s, path, stack).Read?
    requires var below, targets := stack + {Load(s, path, stack).resolved}, Included(s, path);
             && AreReturnsAmong(s, targets, |targets|, below, walks)
             && |walks| == ReportsAmong(s, targets, |targets|, below)
    ensures AreReturns(s, path, stack, walks)
    ensures |walks| == Reports(ReadFile(s, path, stack).warnings)
  {
    var loaded, targets := Load(s, path, stack), Included(s, path);
    var below := stack + {loaded.resolved};
    assert targets[..|targets|] == targets;
    WarningsInOrder(s, loaded.directives, ReadingUnder(s, below));
    forall walk: seq<nat> ensures walk in walks <==> FirstReturnBy(s, path, walk, stack) {
      assert walk in walks <==> ReturnsAmong(s, targets, |targets|, below, walk);
    }
  }

  // ---------------------------------------------------------------- expansion without a stack

  /** Plain substitution of included files, cut off at a nesting depth; nothing is known of
      the files being read. */
  function Substitute(s: Source, path: Path, depth: nat): Expansion
    decreases depth, 0
  {
    if depth == 0 then EMPTY
    else
      match Load(s, path, {})
      case Outside => EMPTY
      case Failed(cause) => Expansion([], [Warning(NameOf(path), cause)])
      case Read(_, directives) => Splice(s, directives, SubstituteTo(s, depth - 1))
  }

  function SubstituteTo(s: Source, depth: nat): Reading
    decreases depth, 1
  {
    path => Substitute(s, path, depth)
  }

  ghost predicate IsSubstitution(s: Source, path: Path, stack: set<Path>, depth: nat) {
    ReadFile(s, path, stack) == Substitute(s, path, depth)
  }

  lemma LoadWithoutStack(s: Source, path: Path, stack: set<Path>)
    ensures Load(s, path, stack) in {Load(s, path, {}), Failed(RecursiveInclude)}
  {
  }

  lemma {:induction false} NoReportMeansSubstitution(s: Source, path: Path, stack: set<Path>, depth: nat)
    requires !Recursive(s, path, stack)
    requires Unvisited(s, stack) < depth
    ensures IsSubstitution(s, path, stack, depth)
    decreases Unvisited(s, stack), 0
  {
    if !Load(s, path, stack).Read? {
      UnreadSubstitution(s, path, stack, depth);
      return;
    }
    var below := Below(s, path, stack);
    var paths := Included(s, path);
    EachIsSubstitution(s, paths, below, depth - 1);
    SubstitutionInside(s, path, stack, below, paths, depth);
  }

  lemma {:induction false} EachIsSubstitution(s: Source, paths: seq<Path>, stack: set<Path>, depth: nat)
    requires forall p | p in paths :: !Recursive(s, p, stack)
    requires Unvisited(s, stack) < depth
    ensures forall p | p in paths :: IsSubstitution(s, p, stack, depth)
    decreases Unvisited(s, stack), 1
  {
    forall p | p in paths ensures IsSubstitution(s, p, stack, depth) {
      NoReportMeansSubstitution(s, p, stack, depth);
    }
  }

  lemma Below(s: Source, path: Path, stack: set<Path>) returns (below: set<Path>)
    requires Load(s, path, stack).Read? && !Recursive(s, path, stack)
    ensures below == stack + {Load(s, path, stack).resolved}
    ensures Unvisited(s, below) < Unvisited(s, stack)
    ensures forall p | p in Included(s, path) :: !Recursive(s, p, below)
  {
    Entering(s, path, stack);
    below := stack + {Load(s, path, stack).resolved};
    forall p | p in Included(s, path) ensures !Recursive(s, p, below) {
      NotReportedBelow(s, path, stack, below, p);
    }
  }

  lemma UnreadSubstitution(s: Source, path: Path, stack: set<Path>, depth: nat)
    requires !Load(s, path, stack).Read? && !Recursive(s, path, stack) && depth > 0
    ensures IsSubstitution(s, path, stack, depth)
  {
    LoadWithoutStack(s, path, stack);
    var loaded := Load(s, path, stack);
    if loaded.Failed? {
      assert Warning(NameOf(path), loaded.cause) in ReadFile(s, path, stack).warnings;
    }
  }

  lemma SubstitutionInside(s: Source, path: Path, stack: set<Path>, below: set<Path>, paths: seq<Path>,
                           depth: nat)
    requires Load(s, path, stack).Read? && depth > 0 && paths == Included(s, path)
    requires below == stack + {Load(s, path, stack).resolved}
    requires forall p | p in paths :: IsSubstitution(s, p, below, depth - 1)
    ensures IsSubstitution(s, path, stack, depth)
  {
    LoadWithoutStack(s, path, stack);
    var loaded := Load(s, path, stack);
    forall p | p in Targets(s, loaded.directives)
      ensures ReadingUnder(s, below)(p) == SubstituteTo(s, depth - 1)(p)
    {
      assert IsSubstitution(s, p, below, depth - 1);
      Applied(s, p, below, depth - 1);
    }
    SpliceAgrees(s, loaded.directives, ReadingUnder(s, below), SubstituteTo(s, depth - 1));
  }

  lemma Applied(s: Source, path: Path, stack: set<Path>, depth: nat)
    ensures ReadingUnder(s, stack)(path) == ReadFile(s, path, stack)
    ensures SubstituteTo(s, depth)(path) == Substitute(s, path, depth)
  {
  }

  lemma NotReportedBelow(s: Source, path: Path, stack: set<Path>, below: set<Path>, next: Path)
    requires Load(s, path, stack).Read? && !Recursive(s, path, stack)
    requires below == stack + {Load(s, path, stack).resolved} && next in Included(s, path)
    ensures !Recursive(s, next, below)
  {
    var read := ReadingUnder(s, below);
    forall w | w in read(next).warnings ensures w.cause != RecursiveInclude {
      SpliceWarnings(s, Load(s, path, stack).directives, read, w);
    }
  }

  /** On an acyclic include graph expansion is plain substitution, at every depth beyond the
      number of files, and no recursion is reported. */
  lemma AcyclicIsSubstitution(s: Source, path: Path, depth: nat)
    requires forall paths: seq<Path> | Walk(s, paths) && paths[0] == path :: !Returns(s, paths, {})
    requires |s.files| < depth
    ensures ReadFile(s, path, {}) == Substitute(s, path, depth)
    ensures !ReportsRecursion(ReadFile(s, path, {}))
  {
    RecursionIsACycle(s, path);
    assert s.files - {} == s.files;
    NoReportMeansSubstitution(s, path, {}, depth);
  }
}
