/** `_NginxConfigReader` of collectors/public_interfaces.py: reading `nginx.conf` with its
    includes from the files of a host. */
module NginxReader {
  import opened Wrappers
  import opened Text
  import opened NginxTokens
  import opened NginxParser
  import opened VirtualPaths
  import opened Includes

  const CONFIG: Path := ["etc", "nginx", "nginx.conf"]

  /** A host: what is found at each path below `/`, and the paths a glob pattern matches, sorted. */
  datatype Host = Host(files: Files, glob: Path -> seq<Path>)

  /** The directives of a file. */
  function Content(h: Host, file: Path): Result<seq<Directive>, ReadError> {
    if file !in h.files || !h.files[file].Text? then Err(CannotRead)
    else
      match Directives(h.files[file].text)
      case Err(e) => Err(Invalid(e))
      case Ok(directives) => Ok(directives)
  }

  function PatternMatches(h: Host, pattern: string): seq<Path> {
    match Safe(if IsAbsolute(pattern) then Components(pattern) else ROOT + Components(pattern))
    case None => []
    case Some(safe) => h.glob(safe)
  }

  function SourceOf(h: Host): Source {
    Source(
      h.files.Keys,
      path => Follow(h.files, path),
      file => Content(h, file),
      pattern => PatternMatches(h, pattern))
  }

  class NginxConfigReader {
    const host: Host
    ghost const source: Source
    var warnings: seq<Warning>

    ghost predicate Valid() {
      source == SourceOf(host)
    }

    constructor (host: Host)
      ensures Valid() && this.host == host && warnings == []
    {
      this.host := host;
      source := SourceOf(host);
      warnings := [];
    }

    /** Reading `nginx.conf` yields its meaning and records the warnings of the meaning. */
    method ReadConfig() returns (directives: seq<Directive>)
      requires Valid()
      modifies this
      ensures directives == ReadFile(source, CONFIG, {}).directives
      ensures warnings == old(warnings) + ReadFile(source, CONFIG, {}).warnings
    {
      directives := Expand(CONFIG, {});
    }

    method Warn(file: Path, cause: Cause)
      modifies this
      ensures warnings == old(warnings) + [Warning(NameOf(file), cause)]
    {
      warnings := warnings + [Warning(NameOf(file), cause)];
    }

    /** `_read_file`. */
    method Expand(path: Path, stack: set<Path>) returns (expanded: seq<Directive>)
      requires Valid()
      modifies this
      ensures expanded == ReadFile(source, path, stack).directives
      ensures warnings == old(warnings) + ReadFile(source, path, stack).warnings
      decreases Unvisited(source, stack), 0
    {
      expanded := [];
      var located := FollowSymlink(host.files, path);
      if located.External? {
        return;
      }
      if located.TooManyLinks? {
        Warn(path, TooManySymlinks);
        return;
      }
      var resolved := located.path;
      if resolved in stack {
        Warn(path, RecursiveInclude);
        return;
      }
      var parsed := ReadText(resolved);
      if parsed.Err? {
        Warn(path, Unusable(parsed.error));
        return;
      }
      Entering(source, path, stack);
      expanded := ExpandChildren(parsed.value, stack + {resolved});
    }

    /** The directives of a resolved file. */
    method ReadText(file: Path) returns (r: Result<seq<Directive>, ReadError>)
      ensures r == Content(host, file)
    {
      if file !in host.files || !host.files[file].Text? {
        return Err(CannotRead);
      }
      var tokens := Tokenize(host.files[file].text);
      if tokens.Err? {
        return Err(Invalid(tokens.error));
      }
      assert tokens.value[0..] == tokens.value;
      var parsed := ParseDirectives(tokens.value, 0, false);
      if parsed.Err? {
        return Err(Invalid(parsed.error));
      }
      return Ok(parsed.value.0);
    }

    /** `_expand_children`; `_read_file` repeats this loop for the directives of a file. */
    method ExpandChildren(directives: seq<Directive>, stack: set<Path>) returns (expanded: seq<Directive>)
      requires Valid()
      modifies this
      ensures expanded == Splice(source, directives, ReadingUnder(source, stack)).directives
      ensures warnings == old(warnings) + Splice(source, directives, ReadingUnder(source, stack)).warnings
      decreases Unvisited(source, stack), 3, directives
    {
      expanded := [];
      ghost var read := ReadingUnder(source, stack);
      for i := 0 to |directives|
        invariant expanded == Splice(source, directives[..i], read).directives
        invariant warnings == old(warnings) + Splice(source, directives[..i], read).warnings
      {
        var more := ExpandDirective(directives[i], stack);
        expanded := expanded + more;
        SpliceSnoc(source, directives[..i], directives[i], read);
        ThenWarns(old(warnings), Splice(source, directives[..i], read), SpliceOne(source, directives[i], read));
        PrefixNext(directives, i);
      }
      assert directives[..|directives|] == directives;
    }

    /** One round of that loop. */
    method ExpandDirective(directive: Directive, stack: set<Path>) returns (expanded: seq<Directive>)
      requires Valid()
      modifies this
      ensures expanded == SpliceOne(source, directive, ReadingUnder(source, stack)).directives
      ensures warnings == old(warnings) + SpliceOne(source, directive, ReadingUnder(source, stack)).warnings
      decreases Unvisited(source, stack), 3, directive
    {
      if directive.name == "include" {
        expanded := Include(directive.arguments, stack);
        return;
      }
      match directive
      case Simple(_, _) =>
        expanded := [directive];
      case Block(name, arguments, children) =>
        var inner := ExpandChildren(children, stack);
        expanded := [Block(name, arguments, inner)];
    }

    /** The loops over the patterns of an include directive and over their matches. */
    method Include(patterns: seq<string>, stack: set<Path>) returns (included: seq<Directive>)
      requires Valid()
      modifies this
      ensures included == ReadEach(Matches(source, patterns), ReadingUnder(source, stack)).directives
      ensures warnings == old(warnings) + ReadEach(Matches(source, patterns), ReadingUnder(source, stack)).warnings
      decreases Unvisited(source, stack), 2
    {
      included := [];
      ghost var read := ReadingUnder(source, stack);
      for i := 0 to |patterns|
        invariant included == ReadEach(Matches(source, patterns[..i]), read).directives
        invariant warnings == old(warnings) + ReadEach(Matches(source, patterns[..i]), read).warnings
      {
        var matches := IncludeMatches(patterns[i]);
        var more := IncludeEach(matches, stack);
        included := included + more;
        IncludeSnoc(source, patterns[..i], patterns[i], read);
        ThenWarns(old(warnings), ReadEach(Matches(source, patterns[..i]), read), ReadEach(matches, read));
        PrefixNext(patterns, i);
      }
      assert patterns[..|patterns|] == patterns;
    }

    /** `_include_matches`. */
    method IncludeMatches(pattern: string) returns (matches: seq<Path>)
      ensures matches == PatternMatches(host, pattern)
    {
      var parts := Components(pattern);
      if !IsAbsolute(pattern) {
        parts := ROOT + parts;
      }
      var safe := SafeVirtualPath(parts);
      if safe.None? {
        return [];
      }
      return host.glob(safe.value);
    }

    method IncludeEach(matches: seq<Path>, stack: set<Path>) returns (included: seq<Directive>)
      requires Valid()
      modifies this
      ensures included == ReadEach(matches, ReadingUnder(source, stack)).directives
      ensures warnings == old(warnings) + ReadEach(matches, ReadingUnder(source, stack)).warnings
      decreases Unvisited(source, stack), 1
    {
      included := [];
      ghost var read := ReadingUnder(source, stack);
      for i := 0 to |matches|
        invariant included == ReadEach(matches[..i], read).directives
        invariant warnings == old(warnings) + ReadEach(matches[..i], read).warnings
      {
        var more := Expand(matches[i], stack);
        included := included + more;
        ReadEachSnoc(matches[..i], matches[i], read);
        ThenWarns(old(warnings), ReadEach(matches[..i], read), read(matches[i]));
        PrefixNext(matches, i);
      }
      assert matches[..|matches|] == matches;
    }
  }
}
