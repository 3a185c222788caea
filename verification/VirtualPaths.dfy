/** Paths below the nginx root: normalisation, confinement and symbolic links
    (`_safe_virtual_path` and `_follow_symlink` of collectors/public_interfaces.py).

    A path is the sequence of its components below `/`. */
module VirtualPaths {
  import opened Wrappers
  import opened Text

  type Path = seq<string>

  const ROOT: Path := ["etc", "nginx"]

  const MAX_LOOKUPS := 20

  /** What the operating system finds at a path. */
  datatype Entry = Text(text: string) | Link(target: string) | Unreadable

  /** All that is found below the mounted host, by path: behind a linked directory too, as `HostDisk`
      derives it. */
  type Files = map<Path, Entry>

  // ---------------------------------------------------------------- normalisation

  function Clean(done: Path, parts: seq<string>): Path
    decreases parts
  {
    if parts == [] then done
    else if parts[0] == "" || parts[0] == "/" || parts[0] == "." then Clean(done, parts[1..])
    else if parts[0] == ".." then Clean(if done == [] then [] else done[..|done| - 1], parts[1..])
    else Clean(done + [parts[0]], parts[1..])
  }

  function Normalize(parts: seq<string>): Path {
    Clean([], parts)
  }

  /** The normalised path, unless it lies outside the nginx root. */
  function Safe(parts: seq<string>): Option<Path> {
    if ROOT <= Normalize(parts) then Some(Normalize(parts)) else None
  }

  method SafeVirtualPath(parts: seq<string>) returns (r: Option<Path>)
    ensures r == Safe(parts)
  {
    var result: Path := [];
    for i := 0 to |parts|
      invariant Clean(result, parts[i..]) == Normalize(parts)
    {
      var part := parts[i];
      assert parts[i..][1..] == parts[i + 1..];
      if part == "" || part == "/" || part == "." {
        continue;
      }
      if part == ".." {
        if result != [] {
          result := result[..|result| - 1];
        }
        continue;
      }
      result := result + [part];
    }
    return if ROOT <= result then Some(result) else None;
  }

  predicate Plain(part: string) {
    part != "" && part != "/" && part != "." && part != ".."
  }

  predicate AllPlain(path: Path) {
    forall part | part in path :: Plain(part)
  }

  lemma {:induction false} CleanIsPlain(done: Path, parts: seq<string>)
    requires AllPlain(done)
    ensures AllPlain(Clean(done, parts))
    decreases parts
  {
    if parts == [] {
    } else if parts[0] == ".." {
      CleanIsPlain(if done == [] then [] else done[..|done| - 1], parts[1..]);
    } else if Plain(parts[0]) {
      CleanIsPlain(done + [parts[0]], parts[1..]);
    } else {
      CleanIsPlain(done, parts[1..]);
    }
  }

  lemma {:induction false} CleanKeepsPlain(done: Path, parts: seq<string>)
    requires AllPlain(parts)
    ensures Clean(done, parts) == done + parts
    decreases parts
  {
    if parts == [] {
      assert done + parts == done;
    } else {
      assert Plain(parts[0]);
      CleanKeepsPlain(done + [parts[0]], parts[1..]);
      assert done + [parts[0]] + parts[1..] == done + parts;
    }
  }

  /** A normal path holds no `.` or `..`, and normalising it again changes nothing. */
  lemma NormalizeIsIdempotent(parts: seq<string>)
    ensures AllPlain(Normalize(parts))
    ensures Normalize(Normalize(parts)) == Normalize(parts)
  {
    CleanIsPlain([], parts);
    CleanKeepsPlain([], Normalize(parts));
    assert [] + Normalize(parts) == Normalize(parts);
  }

  lemma {:induction false} CleanAppend(done: Path, a: seq<string>, b: seq<string>)
    ensures Clean(done, a + b) == Clean(Clean(done, a), b)
    decreases a
  {
    if a == [] {
      assert a + b == b;
    } else {
      assert (a + b)[1..] == a[1..] + b;
      if a[0] == ".." {
        CleanAppend(if done == [] then [] else done[..|done| - 1], a[1..], b);
      } else if a[0] == "" || a[0] == "/" || a[0] == "." {
        CleanAppend(done, a[1..], b);
      } else {
        CleanAppend(done + [a[0]], a[1..], b);
      }
    }
  }

  /** `..` takes the component before it away. */
  lemma DotsTakeAway(before: seq<string>, name: string, rest: seq<string>)
    requires Plain(name)
    ensures Normalize(before + [name, ".."] + rest) == Normalize(before + rest)
  {
    var done := Clean([], before);
    assert before + [name, ".."] + rest == before + ([name, ".."] + rest);
    CleanAppend([], before, [name, ".."] + rest);
    CleanAppend([], before, rest);
    assert ([name, ".."] + rest)[1..] == [".."] + rest && ([".."] + rest)[1..] == rest;
    assert (done + [name])[..|done|] == done;
  }

  /** At the top `..` takes nothing away. */
  lemma DotsAtTheTop(rest: seq<string>)
    ensures Normalize([".."] + rest) == Normalize(rest)
  {
    assert ([".."] + rest)[1..] == rest;
  }

  /** Empty components, `.` and the root vanish. */
  lemma OthersVanish(before: seq<string>, part: string, rest: seq<string>)
    requires part == "" || part == "." || part == "/"
    ensures Normalize(before + [part] + rest) == Normalize(before + rest)
  {
    assert before + [part] + rest == before + ([part] + rest);
    CleanAppend([], before, [part] + rest);
    CleanAppend([], before, rest);
    assert ([part] + rest)[1..] == rest;
  }

  /** A path is safe exactly when it is normalised to one below `/etc/nginx`. */
  lemma SafeExactly(parts: seq<string>)
    ensures Safe(parts) == Some(Normalize(parts)) <==> ["etc", "nginx"] <= Normalize(parts)
    ensures Safe(parts) == None <==> !(["etc", "nginx"] <= Normalize(parts))
  {
  }

  // ---------------------------------------------------------------- symbolic links

  predicate IsLink(files: Files, path: Path) {
    path in files && files[path].Link?
  }

  /** Where a link inside the root points to. */
  function Hop(files: Files, path: Path): Option<Path>
    requires IsLink(files, path) && ROOT <= path
  {
    var target := files[path].target;
    if IsAbsolute(target) then Safe(Components(target))
    else Safe(path[..|path| - 1] + Components(target))
  }

  datatype Located = Found(path: Path) | External | TooManyLinks

  function FollowFrom(files: Files, path: Path, lookups: nat): (r: Located)
    requires ROOT <= path
    ensures r.Found? ==> ROOT <= r.path && !IsLink(files, r.path)
    decreases lookups
  {
    if lookups == 0 then TooManyLinks
    else if !IsLink(files, path) then Found(path)
    else match Hop(files, path)
         case None => External
         case Some(next) => FollowFrom(files, next, lookups - 1)
  }

  function Follow(files: Files, path: Path): (r: Located)
    ensures r.Found? ==> ROOT <= r.path && !IsLink(files, r.path)
  {
    var start := Safe(path);
    if start.None? then External else FollowFrom(files, start.value, MAX_LOOKUPS)
  }

  method FollowSymlink(files: Files, path: Path) returns (r: Located)
    ensures r == Follow(files, path)
  {
    var start := SafeVirtualPath(path);
    if start.None? {
      return External;
    }
    var current := start.value;
    ghost var result := Follow(files, path);
    for i := 0 to MAX_LOOKUPS
      invariant ROOT <= current
      invariant result == FollowFrom(files, current, MAX_LOOKUPS - i)
    {
      // `_actual_path` normalises once more, to no effect.
      if current !in files || !files[current].Link? {
        return Found(current);
      }
      var target := files[current].target;
      var next: Option<Path>;
      if IsAbsolute(target) {
        next := SafeVirtualPath(Components(target));
      } else {
        next := SafeVirtualPath(current[..|current| - 1] + Components(target));
      }
      if next.None? {
        return External;
      }
      current := next.value;
    }
    return TooManyLinks;
  }

  /** The path `hops` links away, provided there are that many and all stay inside. */
  ghost function After(files: Files, path: Path, hops: nat): (r: Option<Path>)
    requires ROOT <= path
    ensures r.Some? ==> ROOT <= r.value
    decreases hops
  {
    if hops == 0 then Some(path)
    else if !IsLink(files, path) || Hop(files, path).None? then None
    else After(files, Hop(files, path).value, hops - 1)
  }

  ghost predicate Ends(files: Files, path: Path, hops: nat, end: Path)
    requires ROOT <= path
  {
    After(files, path, hops) == Some(end) && !IsLink(files, end)
  }

  /** Following links finds a path exactly when a chain of at most 19 links, all inside the
      root, leads there; it gives up exactly when 20 links lead on inside. */
  lemma FollowFinds(files: Files, path: Path, end: Path)
    ensures Follow(files, path) == Found(end)
       <==> Safe(path).Some? && exists hops: nat :: hops <= 19 && Ends(files, Safe(path).value, hops, end)
    ensures Follow(files, path) == TooManyLinks
       <==> Safe(path).Some? && After(files, Safe(path).value, 20).Some?
    ensures Follow(files, path) == Found(end) ==> AllPlain(end) && ROOT <= end && Normalize(end) == end
  {
    if Safe(path).Some? {
      NormalizeIsIdempotent(path);
      FollowFromFinds(files, Safe(path).value, MAX_LOOKUPS, end);
      if Follow(files, path) == Found(end) {
        CleanKeepsPlain([], end);
        assert [] + end == end;
      }
    }
  }

  lemma {:induction false} FollowFromFinds(files: Files, path: Path, lookups: nat, end: Path)
    requires ROOT <= path && AllPlain(path)
    ensures FollowFrom(files, path, lookups) == Found(end)
       <==> exists hops: nat :: hops < lookups && Ends(files, path, hops, end)
    ensures FollowFrom(files, path, lookups) == TooManyLinks <==> After(files, path, lookups).Some?
    ensures FollowFrom(files, path, lookups) == Found(end) ==> AllPlain(end)
    decreases lookups
  {
    if lookups == 0 {
    } else if !IsLink(files, path) {
      assert Ends(files, path, 0, path);
    } else if Hop(files, path).Some? {
      var next := Hop(files, path).value;
      NormalizeIsIdempotent(Components(files[path].target));
      NormalizeIsIdempotent(path[..|path| - 1] + Components(files[path].target));
      FollowFromFinds(files, next, lookups - 1, end);
      forall hops: nat | hops < lookups && Ends(files, path, hops, end)
        ensures 0 < hops && Ends(files, next, hops - 1, end)
      {
      }
      forall hops: nat | hops < lookups - 1 && Ends(files, next, hops, end)
        ensures Ends(files, path, hops + 1, end)
      {
      }
    } else {
      forall hops: nat ensures !Ends(files, path, hops, end) {
      }
    }
  }
}
