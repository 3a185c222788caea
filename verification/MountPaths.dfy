/** Directories behind an SSHFS mount (`_target_directory` and `_windows_directory` of
    services/mounts.py). */
module MountPaths {
  import opened Wrappers
  import opened Text
  import opened VirtualPaths

  // ---------------------------------------------------------------- posixpath

  function StripLeading(s: string): string {
    if s != "" && s[0] == '/' then StripLeading(s[1..]) else s
  }

  function StripTrailing(s: string): string {
    if s != "" && s[|s| - 1] == '/' then StripTrailing(s[..|s| - 1]) else s
  }

  /** The root of an absolute path: exactly two leading slashes are kept. */
  function Root(s: string): string
    requires IsAbsolute(s)
  {
    if |s| > 1 && s[1] == '/' && !(|s| > 2 && s[2] == '/') then "//" else "/"
  }

  /** `posixpath.normpath` of an absolute path. */
  function NormPath(s: string): string
    requires IsAbsolute(s)
  {
    Root(s) + Join("/", Normalize(Components(s)))
  }

  function TargetDirectory(chroot: string, remotePath: string): Option<string> {
    if !IsAbsolute(chroot) || !IsAbsolute(remotePath) then None
    else
      var remote := NormPath("/" + StripLeading(remotePath));
      var joined := StripTrailing(chroot) + remote;
      assert joined[0] == '/' by {
        TrailingStripped(chroot);
      }
      Some(NormPath(joined))
  }

  /** Exactly two leading slashes stay two; any other number becomes one. */
  lemma RootExactly(rest: string)
    requires rest == "" || rest[0] != '/'
    ensures Root("/" + rest) == "/" && Root("//" + rest) == "//"
    ensures Root("///" + rest) == "/"
  {
  }

  lemma {:induction false} TrailingStripped(s: string)
    ensures StripTrailing(s) <= s
  {
    if s != "" && s[|s| - 1] == '/' {
      TrailingStripped(s[..|s| - 1]);
    }
  }

  // ---------------------------------------------------------------- components

  /** A component as it comes out of splitting at slashes. */
  ghost predicate Slashless(parts: seq<string>) {
    forall part | part in parts :: '/' !in part
  }

  lemma {:induction false} SplitIsSlashless(s: string)
    ensures Slashless(Split(s, '/'))
  {
    if s != "" {
      SplitIsSlashless(s[1..]);
      var rest := Split(s[1..], '/');
      assert rest[0] in rest && forall part | part in rest[1..] :: part in rest;
    }
  }

  lemma {:induction false} KeptIsOld(parts: seq<string>)
    ensures forall part | part in Kept(parts) :: part in parts && part != "" && part != "."
  {
    if parts != [] {
      KeptIsOld(parts[1..]);
    }
  }

  lemma {:induction false} CleanIsOld(done: Path, parts: seq<string>)
    ensures forall part | part in Clean(done, parts) :: part in done || part in parts
    decreases parts
  {
    if parts != [] {
      if parts[0] == ".." {
        CleanIsOld(if done == [] then [] else done[..|done| - 1], parts[1..]);
      } else if parts[0] == "" || parts[0] == "/" || parts[0] == "." {
        CleanIsOld(done, parts[1..]);
      } else {
        CleanIsOld(done + [parts[0]], parts[1..]);
      }
    }
  }

  /** A normal path: components that neither vanish nor climb. */
  ghost predicate Normal(path: Path) {
    AllPlain(path) && Slashless(path)
  }

  lemma NormalizedIsNormal(s: string)
    ensures Normal(Normalize(Components(s)))
  {
    NormalizeIsIdempotent(Components(s));
    CleanIsOld([], Components(s));
    KeptIsOld(Split(s, '/'));
    SplitIsSlashless(s);
  }

  /** Leading slashes and the joining of components leave no trace. */
  lemma SlashFirst(s: string)
    ensures Components("/" + s) == Components(s)
  {
    assert "" + "/" + s == "/" + s;
    ComponentsAppend("", s);
    assert Components("") == [] && [] + Components(s) == Components(s);
  }

  lemma SlashLast(s: string)
    ensures Components(s + "/") == Components(s)
  {
    assert s + "/" + "" == s + "/";
    ComponentsAppend(s, "");
    assert Components("") == [] && Components(s) + [] == Components(s);
  }

  lemma {:induction false} LeadingIgnored(s: string)
    ensures Components(StripLeading(s)) == Components(s)
    ensures StripLeading(s) != "" ==> StripLeading(s)[0] != '/'
  {
    if s != "" && s[0] == '/' {
      LeadingIgnored(s[1..]);
      assert s == "/" + s[1..];
      SlashFirst(s[1..]);
    }
  }

  lemma {:induction false} TrailingIgnored(s: string)
    ensures Components(StripTrailing(s)) == Components(s)
  {
    if s != "" && s[|s| - 1] == '/' {
      TrailingIgnored(s[..|s| - 1]);
      assert s == s[..|s| - 1] + "/";
      SlashLast(s[..|s| - 1]);
    }
  }

  lemma {:induction false} JoinedComponents(path: Path)
    requires Normal(path)
    ensures Components(Join("/", path)) == path
  {
    if path == [] {
    } else {
      assert path[0] in path && Plain(path[0]);
      SplitWhole(path[0], '/');
      assert Kept([path[0]]) == [path[0]] + Kept([]);
      if |path| == 1 {
        assert path == [path[0]];
      } else {
        assert Normal(path[1..]);
        JoinedComponents(path[1..]);
        ComponentsAppend(path[0], Join("/", path[1..]));
        assert path == [path[0]] + path[1..];
      }
    }
  }

  lemma NormPathComponents(s: string)
    requires IsAbsolute(s)
    ensures IsAbsolute(NormPath(s)) && Components(NormPath(s)) == Normalize(Components(s))
    ensures Root(NormPath(s)) == Root(s)
  {
    var path := Normalize(Components(s));
    NormalizedIsNormal(s);
    if path != [] {
      assert path[0] in path;
      assert Join("/", path)[0] == path[0][0] && path[0][0] in path[0];
    }
    JoinedComponents(path);
    SlashFirst(Join("/", path));
    SlashFirst("/" + Join("/", path));
    assert "//" + Join("/", path) == "/" + ("/" + Join("/", path));
  }

  /** For absolute inputs the target directory is the normalised chroot followed by the
      remote path, normalised by itself: `..` never climbs above the chroot. */
  lemma TargetIsBelowChroot(chroot: string, remotePath: string)
    requires IsAbsolute(chroot) && IsAbsolute(remotePath)
    ensures TargetDirectory(chroot, remotePath).Some?
    ensures var target := TargetDirectory(chroot, remotePath).value;
            && IsAbsolute(target)
            && Components(target) == Normalize(Components(chroot)) + Normalize(Components(remotePath))
  {
    var path := Normalize(Components(remotePath));
    var single := "/" + StripLeading(remotePath);
    LeadingIgnored(remotePath);
    SlashFirst(StripLeading(remotePath));
    NormalizedIsNormal(remotePath);
    JoinedComponents(path);
    assert Root(single) == "/";
    var joined := StripTrailing(chroot) + NormPath(single);
    TrailingStripped(chroot);
    TrailingIgnored(chroot);
    assert joined == StripTrailing(chroot) + "/" + Join("/", path);
    ComponentsAppend(StripTrailing(chroot), Join("/", path));
    CleanAppend([], Components(chroot), path);
    CleanKeepsPlain(Normalize(Components(chroot)), path);
    assert joined[0] == '/';
    NormPathComponents(joined);
  }

  // ---------------------------------------------------------------- Windows paths

  datatype Mapping = Mapping(linux: string, windows: string)

  /** `PurePosixPath(s).parts`: the root, if any, and the components. */
  function Parts(s: string): seq<string> {
    (if IsAbsolute(s) then [Root(s)] else []) + Components(s)
  }

  predicate Rooted(parts: seq<string>) {
    parts != [] && (parts[0] == "/" || parts[0] == "//")
  }

  /** The mapping covers `target`; `.` covers every relative path and no absolute one. */
  predicate Covers(m: Mapping, target: seq<string>) {
    m.linux != "" && m.windows != "" && Parts(m.linux) <= target && (Parts(m.linux) == [] ==> !Rooted(target))
  }

  lemma ComponentsHaveNoSlash(s: string)
    ensures Slashless(Components(s))
  {
    KeptIsOld(Split(s, '/'));
    SplitIsSlashless(s);
  }

  /** A mapping covers its own Linux directory and what is below it, both absolute or both relative. */
  lemma CoversExactly(m: Mapping, target: string)
    ensures Covers(m, Parts(target)) <==>
            && m.linux != "" && m.windows != ""
            && IsAbsolute(m.linux) == IsAbsolute(target)
            && (IsAbsolute(target) ==> Root(m.linux) == Root(target))
            && Components(m.linux) <= Components(target)
  {
    ComponentsHaveNoSlash(m.linux);
    ComponentsHaveNoSlash(target);
    var a, b := Components(m.linux), Components(target);
    assert '/' in "/" && '/' in "//";
    assert !IsAbsolute(m.linux) ==> Parts(m.linux) == a;
    assert !IsAbsolute(target) ==> Parts(target) == b;
    assert a != [] ==> a[0] in a && a[0] != "/" && a[0] != "//";
    assert b != [] ==> b[0] in b && b[0] != "/" && b[0] != "//";
    if IsAbsolute(m.linux) && IsAbsolute(target) {
      PrefixBehind(Root(m.linux), a, Root(target), b);
    } else if IsAbsolute(target) && a != [] {
      assert Parts(m.linux)[0] == a[0] && Parts(target)[0] == Root(target);
    } else if IsAbsolute(m.linux) && b != [] {
      assert Parts(m.linux)[0] == Root(m.linux) && Parts(target)[0] == b[0];
    }
  }

  lemma PrefixBehind(x: string, a: seq<string>, y: string, b: seq<string>)
    ensures [x] + a <= [y] + b <==> x == y && a <= b
  {
    assert ([x] + a)[1..] == a && ([y] + b)[1..] == b;
    if x == y && a <= b {
      assert [y] + b == ([x] + a) + b[|a|..];
    }
    if [x] + a <= [y] + b {
      var tail := ([y] + b)[|a| + 1..];
      assert [y] + b == ([x] + a) + tail;
      assert ([x] + a + tail)[1..] == a + tail == b;
      assert ([x] + a)[0] == ([y] + b)[0];
    }
  }

  predicate EndsInSeparator(s: string) {
    s != "" && (s[|s| - 1] == '\\' || s[|s| - 1] == '/')
  }

  function Translate(m: Mapping, target: seq<string>): string
    requires Covers(m, target)
  {
    var relative := target[|Parts(m.linux)|..];
    if relative == [] then m.windows
    else m.windows + (if EndsInSeparator(m.windows) then "" else "\\") + Join("\\", relative)
  }

  /** All the parts, each split at backslashes. */
  function SplitEach(parts: seq<string>): seq<string> {
    if parts == [] then [] else Split(parts[0], '\\') + SplitEach(parts[1..])
  }

  lemma {:induction false} SplitJoined(parts: seq<string>)
    requires parts != []
    ensures Split(Join("\\", parts), '\\') == SplitEach(parts)
  {
    if |parts| == 1 {
      assert parts[1..] == [];
      assert SplitEach(parts) == Split(parts[0], '\\') + [];
    } else {
      SplitJoined(parts[1..]);
      SplitAppend(parts[0], '\\', Join("\\", parts[1..]));
    }
  }

  lemma {:induction false} SplitEachPlain(parts: seq<string>)
    requires forall part | part in parts :: '\\' !in part
    ensures SplitEach(parts) == parts
  {
    if parts != [] {
      assert parts[0] in parts && parts == [parts[0]] + parts[1..];
      SplitWhole(parts[0], '\\');
      SplitEachPlain(parts[1..]);
    }
  }

  /** The directory of a mapping is translated to its Windows directory. */
  lemma DirectoryTranslates(m: Mapping)
    requires Covers(m, Parts(m.linux))
    ensures Translate(m, Parts(m.linux)) == m.windows
  {
  }

  /** A path below it is translated to the Windows directory, a backslash unless that ends in a separator,
      and text that splits at backslashes into the rest of the path. */
  lemma TranslationSplits(m: Mapping, rest: seq<string>) returns (tail: string)
    requires Covers(m, Parts(m.linux) + rest) && rest != []
    ensures var last := m.windows[|m.windows| - 1];
            Translate(m, Parts(m.linux) + rest)
            == if last == '\\' || last == '/' then m.windows + tail else m.windows + "\\" + tail
    ensures Split(tail, '\\') == SplitEach(rest)
    ensures (forall part | part in rest :: '\\' !in part) ==> Split(tail, '\\') == rest
  {
    tail := Join("\\", rest);
    BehindPrefix(Parts(m.linux), rest);
    SplitJoined(rest);
    if forall part | part in rest :: '\\' !in part {
      SplitEachPlain(rest);
    }
    assert m.windows + "" == m.windows;
  }

  lemma BehindPrefix(a: seq<string>, b: seq<string>)
    ensures (a + b)[|a|..] == b
  {
  }

  function Depth(m: Mapping): nat {
    |Parts(m.linux)|
  }

  /** Among the first `n` mappings, `i` covers the target, none covers more of it, and none
      before `i` covers as much. */
  ghost predicate Longest(mappings: seq<Mapping>, target: seq<string>, n: int, i: int) {
    && 0 <= i < n <= |mappings| && Covers(mappings[i], target)
    && (forall k | 0 <= k < n && Covers(mappings[k], target) :: Depth(mappings[k]) <= Depth(mappings[i]))
    && (forall k | 0 <= k < i && Covers(mappings[k], target) :: Depth(mappings[k]) < Depth(mappings[i]))
  }

  /** What the directory of a non-empty target is. */
  ghost predicate IsWindowsDirectory(mappings: seq<Mapping>, target: seq<string>, r: Option<string>) {
    match r
    case None => forall m | m in mappings :: !Covers(m, target)
    case Some(directory) =>
      exists i :: Longest(mappings, target, |mappings|, i) && directory == Translate(mappings[i], target)
  }

  method WindowsDirectory(mappings: seq<Mapping>, targetDirectory: Option<string>) returns (r: Option<string>)
    ensures targetDirectory.None? || targetDirectory.value == "" ==> r == None
    ensures targetDirectory.Some? && targetDirectory.value != "" ==>
              IsWindowsDirectory(mappings, Parts(targetDirectory.value), r)
  {
    if targetDirectory.None? || targetDirectory.value == "" {
      return None;
    }
    var best := LongestMapping(mappings, Parts(targetDirectory.value));
    if best.None? {
      return None;
    }
    return Some(Translate(mappings[best.value], Parts(targetDirectory.value)));
  }

  /** The candidate loop and the `max` over its result, which keeps the first maximum. */
  method LongestMapping(mappings: seq<Mapping>, target: seq<string>) returns (best: Option<nat>)
    ensures best.None? ==> forall m | m in mappings :: !Covers(m, target)
    ensures best.Some? ==> Longest(mappings, target, |mappings|, best.value)
  {
    best := None;
    for i := 0 to |mappings|
      invariant best.None? ==> forall k | 0 <= k < i :: !Covers(mappings[k], target)
      invariant best.Some? ==> Longest(mappings, target, i, best.value)
    {
      if !Covers(mappings[i], target) {
        continue;
      }
      if best.None? || Depth(mappings[i]) > Depth(mappings[best.value]) {
        best := Some(i);
      }
    }
  }

  /** No two mappings stand for the same Linux path. */
  ghost predicate DistinctPaths(mappings: seq<Mapping>) {
    forall m, n | m in mappings && n in mappings :: Parts(m.linux) == Parts(n.linux) ==> m == n
  }

  lemma SameDepthSamePath(m: Mapping, n: Mapping, target: seq<string>)
    requires Covers(m, target) && Covers(n, target) && Depth(m) == Depth(n)
    ensures Parts(m.linux) == Parts(n.linux)
  {
    assert Parts(m.linux) == target[..Depth(m)];
    assert Parts(n.linux) == target[..Depth(n)];
  }

  ghost predicate Covered(mappings: seq<Mapping>, target: seq<string>, m: Mapping) {
    m in mappings && Covers(m, target) && forall n | n in mappings && Covers(n, target) :: Depth(n) <= Depth(m)
  }

  lemma Chosen(mappings: seq<Mapping>, target: seq<string>, r: Option<string>) returns (m: Mapping)
    requires IsWindowsDirectory(mappings, target, r) && r.Some?
    ensures Covered(mappings, target, m) && r.value == Translate(m, target)
  {
    var i :| Longest(mappings, target, |mappings|, i) && r.value == Translate(mappings[i], target);
    m := mappings[i];
  }

  /** With distinct Linux paths the longest mapping is unique, and the order of the list does
      not matter. */
  lemma OrderDoesNotMatter(a: seq<Mapping>, b: seq<Mapping>, target: seq<string>,
                           ra: Option<string>, rb: Option<string>)
    requires DistinctPaths(a) && forall m :: m in a <==> m in b
    requires IsWindowsDirectory(a, target, ra) && IsWindowsDirectory(b, target, rb)
    ensures ra == rb
  {
    if ra.Some? {
      var m := Chosen(a, target, ra);
      assert rb.Some? by {
        assert m in b;
      }
      var n := Chosen(b, target, rb);
      SameDepthSamePath(m, n, target);
    } else if rb.Some? {
      var n := Chosen(b, target, rb);
    }
  }
}
