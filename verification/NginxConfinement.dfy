/** Whether the nginx reader looks at anything outside `/etc/nginx`: by path it does not, but the
    operating system may be led outside by a linked directory (`_safe_virtual_path` and its uses in
    collectors/public_interfaces.py). */
module NginxConfinement {
  import opened Wrappers
  import opened Text
  import opened NginxParser
  import opened VirtualPaths
  import opened Includes
  import opened NginxReader
  import opened HostDisk

  /** The hosts hold the same files below the root, and patterns below it match the same. */
  ghost predicate SameBelowRoot(a: Host, b: Host) {
    && (forall path: Path | ROOT <= path :: path in a.files <==> path in b.files)
    && (forall path: Path | ROOT <= path && path in a.files :: path in b.files && a.files[path] == b.files[path])
    && (forall path: Path | ROOT <= path && AllPlain(path) :: a.glob(path) == b.glob(path))
  }

  lemma {:induction false} FollowFromSame(a: Host, b: Host, path: Path, lookups: nat)
    requires SameBelowRoot(a, b) && ROOT <= path
    ensures FollowFrom(a.files, path, lookups) == FollowFrom(b.files, path, lookups)
    decreases lookups
  {
    assert IsLink(a.files, path) == IsLink(b.files, path);
    if lookups > 0 && IsLink(a.files, path) && Hop(a.files, path).Some? {
      FollowFromSame(a, b, Hop(a.files, path).value, lookups - 1);
    }
  }

  /** Links are followed alike. */
  lemma FollowSame(a: Host, b: Host, path: Path)
    requires SameBelowRoot(a, b)
    ensures Follow(a.files, path) == Follow(b.files, path)
  {
    if Safe(path).Some? {
      FollowFromSame(a, b, Safe(path).value, MAX_LOOKUPS);
    }
  }

  /** A pattern is matched only once it is normal and below the root; otherwise it matches nothing. */
  lemma PatternIsConfined(h: Host, pattern: string)
    ensures PatternMatches(h, pattern) == [] ||
            exists path: Path :: ROOT <= path && AllPlain(path) && PatternMatches(h, pattern) == h.glob(path)
  {
    var parts := if IsAbsolute(pattern) then Components(pattern) else ROOT + Components(pattern);
    if Safe(parts).Some? {
      NormalizeIsIdempotent(parts);
      assert PatternMatches(h, pattern) == h.glob(Normalize(parts));
    }
  }

  /** A normal pattern is matched as it stands when it is absolute, and below the root when relative. */
  lemma PatternIsPlaced(h: Host, pattern: string)
    requires AllPlain(Components(pattern))
    ensures IsAbsolute(pattern) ==>
            PatternMatches(h, pattern)
            == if ["etc", "nginx"] <= Components(pattern) then h.glob(Components(pattern)) else []
    ensures !IsAbsolute(pattern) ==> PatternMatches(h, pattern) == h.glob(["etc", "nginx"] + Components(pattern))
  {
    var parts := Components(pattern);
    assert Plain("etc") && Plain("nginx");
    forall part | part in ROOT + parts ensures Plain(part) {
    }
    CleanKeepsPlain([], parts);
    CleanKeepsPlain([], ROOT + parts);
    assert [] + parts == parts && [] + (ROOT + parts) == ROOT + parts;
  }

  lemma PatternSame(a: Host, b: Host, pattern: string)
    requires SameBelowRoot(a, b)
    ensures PatternMatches(a, pattern) == PatternMatches(b, pattern)
  {
    NormalizeIsIdempotent(if IsAbsolute(pattern) then Components(pattern) else ROOT + Components(pattern));
  }

  lemma LoadSame(a: Host, b: Host, path: Path, stack: set<Path>)
    requires SameBelowRoot(a, b)
    ensures Load(SourceOf(a), path, stack) == Load(SourceOf(b), path, stack)
  {
    FollowSame(a, b, path);
    var located := Follow(a.files, path);
    if located.Found? {
      assert Content(a, located.path) == Content(b, located.path);
    }
  }

  // ---------------------------------------------------------------- splicing

  ghost predicate ReadSame(a: Reading, b: Reading) {
    forall path: Path :: a(path) == b(path)
  }

  ghost predicate MatchSame(s: Source, t: Source) {
    forall pattern: string :: s.matches(pattern) == t.matches(pattern)
  }

  lemma {:induction false} MatchesSame(s: Source, t: Source, patterns: seq<string>)
    requires MatchSame(s, t)
    ensures Matches(s, patterns) == Matches(t, patterns)
  {
    if patterns != [] {
      MatchesSame(s, t, patterns[1..]);
    }
  }

  lemma {:induction false} ReadEachSame(paths: seq<Path>, a: Reading, b: Reading)
    requires ReadSame(a, b)
    ensures ReadEach(paths, a) == ReadEach(paths, b)
  {
    if paths != [] {
      ReadEachSame(paths[1..], a, b);
    }
  }

  lemma {:induction false} SpliceSame(s: Source, t: Source, ds: seq<Directive>, a: Reading, b: Reading)
    requires MatchSame(s, t) && ReadSame(a, b)
    ensures Splice(s, ds, a) == Splice(t, ds, b)
    decreases ds
  {
    if ds != [] {
      if ds[0].name == "include" {
        MatchesSame(s, t, ds[0].arguments);
        ReadEachSame(Matches(s, ds[0].arguments), a, b);
      } else if ds[0].Block? {
        SpliceSame(s, t, ds[0].children, a, b);
      }
      SpliceSame(s, t, ds[1..], a, b);
    }
  }

  // ---------------------------------------------------------------- reading

  lemma PatternsSame(a: Host, b: Host)
    requires SameBelowRoot(a, b)
    ensures MatchSame(SourceOf(a), SourceOf(b))
  {
    forall pattern: string ensures SourceOf(a).matches(pattern) == SourceOf(b).matches(pattern) {
      PatternSame(a, b, pattern);
    }
  }

  lemma SameInside(a: Host, b: Host, path: Path, stack: set<Path>, below: set<Path>)
    requires SameBelowRoot(a, b)
    requires Load(SourceOf(a), path, stack).Read? && below == stack + {Load(SourceOf(a), path, stack).resolved}
    requires ReadSame(ReadingUnder(SourceOf(a), below), ReadingUnder(SourceOf(b), below))
    ensures ReadFile(SourceOf(a), path, stack) == ReadFile(SourceOf(b), path, stack)
  {
    var s, t := SourceOf(a), SourceOf(b);
    LoadSame(a, b, path, stack);
    PatternsSame(a, b);
    var directives := Load(s, path, stack).directives;
    SpliceSame(s, t, directives, ReadingUnder(s, below), ReadingUnder(t, below));
    assert ReadFile(s, path, stack) == Splice(s, directives, ReadingUnder(s, below));
    assert ReadFile(t, path, stack) == Splice(t, directives, ReadingUnder(t, below));
  }

  lemma {:induction false} ReadFileSame(a: Host, b: Host, path: Path, stack: set<Path>)
    requires SameBelowRoot(a, b)
    ensures ReadFile(SourceOf(a), path, stack) == ReadFile(SourceOf(b), path, stack)
    decreases Unvisited(SourceOf(a), stack)
  {
    var s, t := SourceOf(a), SourceOf(b);
    LoadSame(a, b, path, stack);
    var loaded := Load(s, path, stack);
    if loaded.Read? {
      Entering(s, path, stack);
      var below := stack + {loaded.resolved};
      forall next: Path ensures ReadingUnder(s, below)(next) == ReadingUnder(t, below)(next) {
        ReadFileSame(a, b, next, below);
      }
      SameInside(a, b, path, stack, below);
    }
  }

  // ---------------------------------------------------------------- down to the disk

  /** What `glob` makes of the files below the root and a pattern. */
  type Matcher = (Files, Path) -> seq<Path>

  function Below(files: Files): Files {
    map path | path in files && ROOT <= path :: files[path]
  }

  /** The host that the operating system shows of a disk. */
  function HostOf(d: Disk, matcher: Matcher): Host {
    Host(ViewOf(d), pattern => matcher(Below(ViewOf(d)), pattern))
  }

  /** The disks hold the same below the root, wherever the hosts are mounted. */
  ghost predicate SameNodesBelowRoot(a: Disk, b: Disk) {
    && a.longest == b.longest
    && (forall path: Path | ROOT <= path :: a.root + path in a.nodes <==> b.root + path in b.nodes)
    && (forall path: Path | ROOT <= path && a.root + path in a.nodes ::
          b.root + path in b.nodes && a.nodes[a.root + path] == b.nodes[b.root + path])
  }

  lemma SameLookup(a: Disk, b: Disk, path: Path)
    requires SameNodesBelowRoot(a, b) && InPlace(a) && InPlace(b)
    requires ROOT <= path && AllPlain(path)
    ensures Lookup(a, path) == Lookup(b, path)
  {
    if a.root + path in a.nodes && |path| <= a.longest {
      FoundInPlace(a, path);
      FoundInPlace(b, path);
    }
  }

  lemma SameView(a: Disk, b: Disk, path: Path)
    requires SameNodesBelowRoot(a, b) && InPlace(a) && InPlace(b) && ROOT <= path
    ensures path in ViewOf(a) <==> path in ViewOf(b)
    ensures path in ViewOf(a) ==> ViewOf(a)[path] == ViewOf(b)[path]
  {
    if path in ViewOf(a) || path in ViewOf(b) {
      if path in ViewOf(a) {
        ViewIsPlain(a, path);
      } else {
        ViewIsPlain(b, path);
      }
      SameLookup(a, b, path);
      ViewIsLookup(a, path);
      ViewIsLookup(b, path);
    }
  }

  lemma SameHosts(a: Disk, b: Disk, matcher: Matcher)
    requires SameNodesBelowRoot(a, b) && InPlace(a) && InPlace(b)
    ensures SameBelowRoot(HostOf(a, matcher), HostOf(b, matcher))
  {
    forall path: Path | ROOT <= path
      ensures path in ViewOf(a) <==> path in ViewOf(b)
      ensures path in ViewOf(a) ==> ViewOf(a)[path] == ViewOf(b)[path]
    {
      SameView(a, b, path);
    }
    assert Below(ViewOf(a)) == Below(ViewOf(b));
  }

  /** While `/etc/nginx` is found at its own path, if at all, and no link below it leads to a directory
      that holds anything, nothing outside it has any influence on what is read. */
  lemma ReadsOnlyBelowRoot(a: Disk, b: Disk, matcher: Matcher)
    requires SameNodesBelowRoot(a, b)
    requires RootInPlace(a) && LinksHoldNothing(a) && RootInPlace(b) && LinksHoldNothing(b)
    ensures ReadFile(SourceOf(HostOf(a, matcher)), CONFIG, {}) == ReadFile(SourceOf(HostOf(b, matcher)), CONFIG, {})
  {
    InPlaceExactly(a);
    InPlaceExactly(b);
    SameHosts(a, b, matcher);
    ReadFileSame(HostOf(a, matcher), HostOf(b, matcher), CONFIG, {});
  }
}
