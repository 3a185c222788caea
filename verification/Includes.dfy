/** The meaning of include directives (`_read_file` and `_expand_children` of
    collectors/public_interfaces.py), over files whose directives are known.

    `Splice` replaces every include directive, in place, by what reading the files it
    matches yields. `ReadFile` ties the knot with the set of files being read. */
module Includes {
  import opened Wrappers
  import opened NginxTokens
  import opened NginxParser
  import opened VirtualPaths

  datatype ReadError = CannotRead | Invalid(error: SyntaxError)

  datatype Cause = TooManySymlinks | RecursiveInclude | Unusable(error: ReadError)

  datatype Warning = Warning(file: string, cause: Cause)

  /** The last component, by which a warning names a file. */
  function NameOf(path: Path): string {
    if path == [] then "" else path[|path| - 1]
  }

  /** Where virtual paths lead, what the files hold and what a pattern matches. */
  datatype Source = Source(
    files: set<Path>,
    locate: Path -> Located,
    content: Path -> Result<seq<Directive>, ReadError>,
    matches: string -> seq<Path>)

  // ---------------------------------------------------------------- splicing

  /** What expansion yields: directives and warnings, in order. */
  datatype Expansion = Expansion(directives: seq<Directive>, warnings: seq<Warning>) {
    function Then(next: Expansion): Expansion {
      Expansion(directives + next.directives, warnings + next.warnings)
    }
  }

  const EMPTY := Expansion([], [])

  /** How the meaning of a file is looked up by the virtual path an include matched. */
  type Reading = Path -> Expansion

  function Matches(s: Source, patterns: seq<string>): seq<Path> {
    if patterns == [] then [] else s.matches(patterns[0]) + Matches(s, patterns[1..])
  }

  function ReadEach(paths: seq<Path>, read: Reading): Expansion {
    if paths == [] then EMPTY else read(paths[0]).Then(ReadEach(paths[1..], read))
  }

  function SpliceOne(s: Source, d: Directive, read: Reading): Expansion {
    if d.name == "include" then ReadEach(Matches(s, d.arguments), read)
    else match d
         case Simple(_, _) => Expansion([d], [])
         case Block(name, arguments, children) =>
           var inner := Splice(s, children, read);
           Expansion([Block(name, arguments, inner.directives)], inner.warnings)
  }

  function Splice(s: Source, ds: seq<Directive>, read: Reading): Expansion {
    if ds == [] then EMPTY else SpliceOne(s, ds[0], read).Then(Splice(s, ds[1..], read))
  }

  // ---------------------------------------------------------------- reading files

  datatype Loaded =
    | Outside
    | Failed(cause: Cause)
    | Read(resolved: Path, directives: seq<Directive>)

  /** The directives of a file, or why it has none; `stack` holds the files being read. */
  function Load(s: Source, path: Path, stack: set<Path>): (r: Loaded)
    ensures r.Read? ==> r.resolved in s.files && r.resolved !in stack
  {
    match s.locate(path)
    case External => Outside
    case TooManyLinks => Failed(TooManySymlinks)
    case Found(resolved) =>
      if resolved in stack then Failed(RecursiveInclude)
      else if resolved !in s.files then Failed(Unusable(CannotRead))
      else match s.content(resolved)
           case Err(e) => Failed(Unusable(e))
           case Ok(directives) => Read(resolved, directives)
  }

  /** The number of files that may still be entered: what bounds the include depth. */
  ghost function Unvisited(s: Source, stack: set<Path>): nat {
    |s.files - stack|
  }

  lemma Entering(s: Source, path: Path, stack: set<Path>)
    requires Load(s, path, stack).Read?
    ensures Unvisited(s, stack + {Load(s, path, stack).resolved}) < Unvisited(s, stack)
  {
    var resolved := Load(s, path, stack).resolved;
    assert s.files - stack == s.files - (stack + {resolved}) + {resolved};
  }

  function ReadFile(s: Source, path: Path, stack: set<Path>): Expansion
    decreases Unvisited(s, stack), 0
  {
    match Load(s, path, stack)
    case Outside => EMPTY
    case Failed(cause) => Expansion([], [Warning(NameOf(path), cause)])
    case Read(resolved, directives) =>
      Entering(s, path, stack);
      Splice(s, directives, ReadingUnder(s, stack + {resolved}))
  }

  function ReadingUnder(s: Source, stack: set<Path>): Reading
    decreases Unvisited(s, stack), 1
  {
    path => ReadFile(s, path, stack)
  }

  // ---------------------------------------------------------------- splicing is in place

  lemma {:induction false} MatchesAppend(s: Source, a: seq<string>, b: seq<string>)
    ensures Matches(s, a + b) == Matches(s, a) + Matches(s, b)
  {
    if a == [] {
      assert a + b == b;
    } else {
      assert (a + b)[1..] == a[1..] + b;
      MatchesAppend(s, a[1..], b);
    }
  }

  lemma PrefixNext<T>(s: seq<T>, i: nat)
    requires i < |s|
    ensures s[..i] + [s[i]] == s[..i + 1]
  {
  }

  lemma ThenWarns(was: seq<Warning>, a: Expansion, b: Expansion)
    ensures was + a.Then(b).warnings == was + a.warnings + b.warnings
  {
  }

  lemma IncludeSnoc(s: Source, patterns: seq<string>, pattern: string, read: Reading)
    ensures ReadEach(Matches(s, patterns + [pattern]), read)
         == ReadEach(Matches(s, patterns), read).Then(ReadEach(s.matches(pattern), read))
  {
    MatchesAppend(s, patterns, [pattern]);
    var matches := s.matches(pattern);
    assert Matches(s, [pattern]) == matches + [] == matches;
    ReadEachAppend(Matches(s, patterns), s.matches(pattern), read);
  }

  lemma ReadEachSnoc(paths: seq<Path>, path: Path, read: Reading)
    ensures ReadEach(paths + [path], read) == ReadEach(paths, read).Then(read(path))
  {
    ReadEachAppend(paths, [path], read);
    assert ReadEach([path], read) == read(path).Then(EMPTY) == read(path);
  }

  lemma {:induction false} ReadEachAppend(a: seq<Path>, b: seq<Path>, read: Reading)
    ensures ReadEach(a + b, read) == ReadEach(a, read).Then(ReadEach(b, read))
  {
    if a == [] {
      assert a + b == b;
    } else {
      assert (a + b)[1..] == a[1..] + b;
      ReadEachAppend(a[1..], b, read);
      ThenThen(read(a[0]), ReadEach(a[1..], read), ReadEach(b, read));
    }
  }

  lemma ThenThen(a: Expansion, b: Expansion, c: Expansion)
    ensures a.Then(b.Then(c)) == a.Then(b).Then(c)
  {
  }

  /** Splicing works directive by directive: what an include yields, or fails to, leaves
      what stands before and after it alone. */
  lemma {:induction false} SpliceAppend(s: Source, a: seq<Directive>, b: seq<Directive>, read: Reading)
    ensures Splice(s, a + b, read) == Splice(s, a, read).Then(Splice(s, b, read))
    decreases a
  {
    if a == [] {
      assert a + b == b;
    } else {
      assert (a + b)[1..] == a[1..] + b;
      SpliceAppend(s, a[1..], b, read);
      ThenThen(SpliceOne(s, a[0], read), Splice(s, a[1..], read), Splice(s, b, read));
    }
  }

  lemma SpliceSnoc(s: Source, ds: seq<Directive>, d: Directive, read: Reading)
    ensures Splice(s, ds + [d], read) == Splice(s, ds, read).Then(SpliceOne(s, d, read))
  {
    SpliceAppend(s, ds, [d], read);
    assert Splice(s, [d], read) == SpliceOne(s, d, read).Then(EMPTY);
  }

  /** Among files to read, one that leads back to a file being read yields nothing but one warning. */
  lemma BackEdgeAmong(s: Source, first: seq<Path>, path: Path, last: seq<Path>, stack: set<Path>)
    requires s.locate(path).Found? && s.locate(path).path in stack
    ensures var read := ReadingUnder(s, stack);
            ReadEach(first + [path] + last, read)
            == ReadEach(first, read)
               .Then(Expansion([], [Warning(NameOf(path), RecursiveInclude)]))
               .Then(ReadEach(last, read))
  {
    var read := ReadingUnder(s, stack);
    assert read(path) == ReadFile(s, path, stack) == Expansion([], [Warning(NameOf(path), RecursiveInclude)]);
    ReadEachAppend(first + [path], last, read);
    ReadEachSnoc(first, path, read);
  }

  /** Whatever else an include matches, a match that leads back to a file being read adds no directive
      and exactly one warning, and all before and after it is kept. */
  lemma BackEdge(s: Source, before: seq<Directive>, d: Directive, after: seq<Directive>,
                 first: seq<Path>, path: Path, last: seq<Path>, stack: set<Path>)
    requires d.name == "include" && Matches(s, d.arguments) == first + [path] + last
    requires s.locate(path).Found? && s.locate(path).path in stack
    ensures var read := ReadingUnder(s, stack);
            var front := Splice(s, before, read).Then(ReadEach(first, read));
            var back := ReadEach(last, read).Then(Splice(s, after, read));
            && Splice(s, before + [d] + after, read).directives == front.directives + back.directives
            && Splice(s, before + [d] + after, read).warnings
               == front.warnings + [Warning(NameOf(path), RecursiveInclude)] + back.warnings
  {
    var read := ReadingUnder(s, stack);
    var front, back := ReadEach(first, read), ReadEach(last, read);
    var edge := Expansion([], [Warning(NameOf(path), RecursiveInclude)]);
    SpliceAppend(s, before + [d], after, read);
    SpliceSnoc(s, before, d, read);
    BackEdgeAmong(s, first, path, last, stack);
    assert SpliceOne(s, d, read) == front.Then(edge).Then(back);
    ThenFive(Splice(s, before, read), front, edge, back, Splice(s, after, read));
  }

  lemma ThenFive(a: Expansion, b: Expansion, c: Expansion, d: Expansion, e: Expansion)
    requires c.directives == []
    ensures var all := a.Then(b.Then(c).Then(d)).Then(e);
            && all.directives == a.Then(b).directives + d.Then(e).directives
            && all.warnings == a.Then(b).warnings + c.warnings + d.Then(e).warnings
  {
    ThenThen(a, b.Then(c), d);
    ThenThen(a, b, c);
    ThenThen(a.Then(b).Then(c), d, e);
    assert a.Then(b).directives + [] == a.Then(b).directives;
  }

  /** What cannot be read contributes no directive: without a word if it lies outside the root, and
      otherwise with one warning that has the last component of its path and the cause. */
  lemma UnreadContributesNothing(s: Source, directory: Path, name: string, stack: set<Path>)
    requires !Load(s, directory + [name], stack).Read?
    ensures var path := directory + [name];
            var located := s.locate(path);
            ReadFile(s, path, stack) ==
              if located.External? then Expansion([], [])
              else if located.TooManyLinks? then Expansion([], [Warning(name, TooManySymlinks)])
              else if located.path in stack then Expansion([], [Warning(name, RecursiveInclude)])
              else if located.path !in s.files then Expansion([], [Warning(name, Unusable(CannotRead))])
              else
                assert s.content(located.path).Err?;
                Expansion([], [Warning(name, Unusable(s.content(located.path).error))])
  {
  }

  ghost predicate NoInclude(d: Directive) {
    d.name != "include" && (d.Block? ==> forall child | child in d.children :: NoInclude(child))
  }

  /** Directives without include at any depth expand to themselves, with no warning. */
  lemma {:induction false} NothingToInclude(s: Source, ds: seq<Directive>, read: Reading)
    requires forall d | d in ds :: NoInclude(d)
    ensures Splice(s, ds, read) == Expansion(ds, [])
    decreases ds
  {
    if ds != [] {
      var d := ds[0];
      assert NoInclude(d);
      if d.Block? {
        NothingToInclude(s, d.children, read);
      }
      NothingToInclude(s, ds[1..], read);
      assert ds == [d] + ds[1..];
    }
  }

  /** No include directive is left at any depth. */
  lemma {:induction false} ReadFileHasNoInclude(s: Source, path: Path, stack: set<Path>)
    ensures forall d | d in ReadFile(s, path, stack).directives :: NoInclude(d)
    decreases Unvisited(s, stack)
  {
    var loaded := Load(s, path, stack);
    if loaded.Read? {
      Entering(s, path, stack);
      var below := stack + {loaded.resolved};
      forall p: Path ensures forall d | d in ReadingUnder(s, below)(p).directives :: NoInclude(d) {
        ReadFileHasNoInclude(s, p, below);
      }
      SpliceHasNoInclude(s, loaded.directives, ReadingUnder(s, below));
    }
  }

  lemma {:induction false} SpliceHasNoInclude(s: Source, ds: seq<Directive>, read: Reading)
    requires forall path: Path, d | d in read(path).directives :: NoInclude(d)
    ensures forall d | d in Splice(s, ds, read).directives :: NoInclude(d)
    decreases ds
  {
    if ds != [] {
      if ds[0].name == "include" {
        ReadEachHasNoInclude(Matches(s, ds[0].arguments), read);
      } else if ds[0].Block? {
        SpliceHasNoInclude(s, ds[0].children, read);
      }
      SpliceHasNoInclude(s, ds[1..], read);
    }
  }

  lemma {:induction false} ReadEachHasNoInclude(paths: seq<Path>, read: Reading)
    requires forall path: Path, d | d in read(path).directives :: NoInclude(d)
    ensures forall d | d in ReadEach(paths, read).directives :: NoInclude(d)
  {
    if paths != [] {
      ReadEachHasNoInclude(paths[1..], read);
    }
  }
}
