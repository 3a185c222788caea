/** Include expansion said on tokens: each include statement, at any depth, is replaced in place by the
    tokens of the files it matches (`_read_file` and `_expand_children` of
    collectors/public_interfaces.py). */
module NginxInlining {
  import opened Wrappers
  import opened NginxTokens
  import opened NginxParser
  import opened VirtualPaths
  import opened Includes
  import opened NginxReader
  import opened NginxIncludeGraph

  /** The tokens that stand for an included file. */
  type Replacement = Path -> seq<string>

  function EachReplaced(paths: seq<Path>, replacement: Replacement): seq<string> {
    if paths == [] then [] else replacement(paths[0]) + EachReplaced(paths[1..], replacement)
  }

  /** What follows the closing brace, `depth` blocks being open inside the one it closes. */
  function BehindBlock(tokens: seq<string>, depth: nat): seq<string>
    decreases |tokens|
  {
    if tokens == [] then []
    else if tokens[0] == "{" then BehindBlock(tokens[1..], depth + 1)
    else if tokens[0] != "}" then BehindBlock(tokens[1..], depth)
    else if depth == 0 then tokens[1..]
    else BehindBlock(tokens[1..], depth - 1)
  }

  lemma {:induction false} BehindBlockShrinks(tokens: seq<string>, depth: nat)
    ensures |BehindBlock(tokens, depth)| <= |tokens|
    decreases |tokens|
  {
    if tokens != [] {
      if tokens[0] == "{" {
        BehindBlockShrinks(tokens[1..], depth + 1);
      } else if tokens[0] != "}" {
        BehindBlockShrinks(tokens[1..], depth);
      } else if depth > 0 {
        BehindBlockShrinks(tokens[1..], depth - 1);
      }
    }
  }

  /** What follows the terminator of a statement whose words have been read. */
  function BehindStatement(tokens: seq<string>): (r: seq<string>)
    ensures |r| <= |tokens|
  {
    if tokens == [] then []
    else if tokens[0] == "{" then
      BehindBlockShrinks(tokens[1..], 0);
      BehindBlock(tokens[1..], 0)
    else tokens[1..]
  }

  /** The tokens with every include statement replaced; `first` says that a statement begins here. A block
      behind an include goes with it. */
  function Inlined(s: Source, tokens: seq<string>, first: bool, replacement: Replacement): seq<string>
    decreases |tokens|
  {
    if tokens == [] then []
    else if first && tokens[0] == "include" then
      var n := WordCount(tokens[1..]);
      EachReplaced(Matches(s, tokens[1..][..n]), replacement)
      + Inlined(s, BehindStatement(tokens[1..][n..]), true, replacement)
    else [tokens[0]] + Inlined(s, tokens[1..], IsPunctuation(tokens[0]), replacement)
  }

  /** The replacement that flattens what files read as. */
  function Flattened(read: Reading): Replacement {
    path => FlattenAll(read(path).directives)
  }

  // ---------------------------------------------------------------- splicing is inlining

  lemma {:induction false} EachFlattened(paths: seq<Path>, read: Reading)
    ensures FlattenAll(ReadEach(paths, read).directives) == EachReplaced(paths, Flattened(read))
  {
    if paths != [] {
      EachFlattened(paths[1..], read);
      FlattenAppend(read(paths[0]).directives, ReadEach(paths[1..], read).directives);
    }
  }

  lemma {:induction false} WordsCopied(s: Source, words: seq<string>, rest: seq<string>, replacement: Replacement)
    requires Words(words)
    ensures Inlined(s, words + rest, false, replacement) == words + Inlined(s, rest, false, replacement)
    decreases words
  {
    if words == [] {
      assert words + rest == rest;
    } else {
      assert words[0] in words;
      assert (words + rest)[1..] == words[1..] + rest;
      WordsCopied(s, words[1..], rest, replacement);
    }
  }

  lemma StatementCopied(s: Source, name: string, arguments: seq<string>, rest: seq<string>, replacement: Replacement)
    requires Words([name] + arguments) && name != "include"
    ensures Inlined(s, [name] + arguments + rest, true, replacement)
         == [name] + arguments + Inlined(s, rest, false, replacement)
  {
    assert name in [name] + arguments;
    assert forall word | word in arguments :: word in [name] + arguments;
    Regroup([name], arguments, rest);
    FirstCopied(s, name, arguments + rest, replacement);
    WordsCopied(s, arguments, rest, replacement);
    Regroup([name], arguments, Inlined(s, rest, false, replacement));
  }

  lemma Regroup(a: seq<string>, b: seq<string>, c: seq<string>)
    ensures a + b + c == a + (b + c)
  {
  }

  lemma FirstCopied(s: Source, word: string, rest: seq<string>, replacement: Replacement)
    requires word != "include" && !IsPunctuation(word)
    ensures Inlined(s, [word] + rest, true, replacement) == [word] + Inlined(s, rest, false, replacement)
  {
    assert ([word] + rest)[1..] == rest;
  }

  lemma MarkCopied(s: Source, mark: string, rest: seq<string>, replacement: Replacement)
    requires IsPunctuation(mark)
    ensures Inlined(s, [mark] + rest, false, replacement) == [mark] + Inlined(s, rest, true, replacement)
    ensures mark == "}" ==> Inlined(s, [mark] + rest, true, replacement) == [mark] + Inlined(s, rest, true, replacement)
  {
    assert ([mark] + rest)[1..] == rest;
  }

  lemma {:induction false} WordsSkipped(words: seq<string>, rest: seq<string>, depth: nat)
    requires Words(words)
    ensures BehindBlock(words + rest, depth) == BehindBlock(rest, depth)
    decreases words
  {
    if words == [] {
      assert words + rest == rest;
    } else {
      assert words[0] in words;
      assert (words + rest)[1..] == words[1..] + rest;
      WordsSkipped(words[1..], rest, depth);
    }
  }

  lemma MarkSkipped(mark: string, rest: seq<string>, depth: nat)
    ensures mark == ";" ==> BehindBlock([mark] + rest, depth) == BehindBlock(rest, depth)
    ensures mark == "{" ==> BehindBlock([mark] + rest, depth) == BehindBlock(rest, depth + 1)
    ensures mark == "}" ==>
            BehindBlock([mark] + rest, depth) == if depth == 0 then rest else BehindBlock(rest, depth - 1)
  {
    assert ([mark] + rest)[1..] == rest;
  }

  lemma {:induction false} TreeSkipped(d: Directive, rest: seq<string>, depth: nat)
    requires WordTree(d)
    ensures BehindBlock(Flatten(d) + rest, depth) == BehindBlock(rest, depth)
    decreases d, 0
  {
    var words := [d.name] + d.arguments;
    match d
    case Simple(name, arguments) =>
      assert Flatten(d) + rest == words + ([";"] + rest);
      WordsSkipped(words, [";"] + rest, depth);
      MarkSkipped(";", rest, depth);
    case Block(name, arguments, children) =>
      SpellGroup(name, arguments, FlattenAll(children), rest);
      WordsSkipped(words, ["{"] + (FlattenAll(children) + (["}"] + rest)), depth);
      MarkSkipped("{", FlattenAll(children) + (["}"] + rest), depth);
      TreesSkipped(children, ["}"] + rest, depth + 1);
      MarkSkipped("}", rest, depth + 1);
  }

  lemma {:induction false} TreesSkipped(ds: seq<Directive>, rest: seq<string>, depth: nat)
    requires AllWordTrees(ds)
    ensures BehindBlock(FlattenAll(ds) + rest, depth) == BehindBlock(rest, depth)
    decreases ds, 1
  {
    if ds == [] {
      assert FlattenAll(ds) + rest == rest;
    } else {
      assert FlattenAll(ds) + rest == Flatten(ds[0]) + (FlattenAll(ds[1..]) + rest);
      TreeSkipped(ds[0], FlattenAll(ds[1..]) + rest, depth);
      TreesSkipped(ds[1..], rest, depth);
    }
  }

  lemma IncludeReplaced(s: Source, arguments: seq<string>, behind: seq<string>, replacement: Replacement)
    requires Words(arguments) && (behind == [] || IsPunctuation(behind[0]))
    ensures Inlined(s, ["include"] + arguments + behind, true, replacement)
         == EachReplaced(Matches(s, arguments), replacement) + Inlined(s, BehindStatement(behind), true, replacement)
  {
    var tokens := ["include"] + arguments + behind;
    assert tokens[1..] == arguments + behind;
    WordCountOf(arguments, behind);
    assert (arguments + behind)[..|arguments|] == arguments && (arguments + behind)[|arguments|..] == behind;
  }

  lemma {:induction false} TreeInlined(s: Source, d: Directive, rest: seq<string>, read: Reading)
    requires WordTree(d)
    ensures Inlined(s, Flatten(d) + rest, true, Flattened(read))
         == FlattenAll(SpliceOne(s, d, read).directives) + Inlined(s, rest, true, Flattened(read))
    decreases d, 0
  {
    if d.name == "include" {
      TreeReplaced(s, d, rest, read);
      return;
    }
    match d
    case Simple(name, arguments) =>
      assert Flatten(d) + rest == [name] + arguments + ([";"] + rest);
      StatementCopied(s, name, arguments, [";"] + rest, Flattened(read));
      MarkCopied(s, ";", rest, Flattened(read));
      FlattenOne(d);
    case Block(name, arguments, children) =>
      var inside := FlattenAll(children) + (["}"] + rest);
      SpellGroup(name, arguments, FlattenAll(children), rest);
      StatementCopied(s, name, arguments, ["{"] + inside, Flattened(read));
      MarkCopied(s, "{", inside, Flattened(read));
      TreesInlined(s, children, ["}"] + rest, read);
      MarkCopied(s, "}", rest, Flattened(read));
      var inner := Splice(s, children, read).directives;
      FlattenOne(Block(name, arguments, inner));
      SpellGroup(name, arguments, FlattenAll(inner), Inlined(s, rest, true, Flattened(read)));
  }

  lemma TreeReplaced(s: Source, d: Directive, rest: seq<string>, read: Reading)
    requires WordTree(d) && d.name == "include"
    ensures Inlined(s, Flatten(d) + rest, true, Flattened(read))
         == FlattenAll(SpliceOne(s, d, read).directives) + Inlined(s, rest, true, Flattened(read))
  {
    assert forall word | word in d.arguments :: word in [d.name] + d.arguments;
    EachFlattened(Matches(s, d.arguments), read);
    match d
    case Simple(name, arguments) =>
      assert Flatten(d) + rest == [name] + arguments + ([";"] + rest);
      IncludeReplaced(s, arguments, [";"] + rest, Flattened(read));
      assert ([";"] + rest)[1..] == rest;
    case Block(name, arguments, children) =>
      var inside := FlattenAll(children) + (["}"] + rest);
      SpellGroup(name, arguments, FlattenAll(children), rest);
      IncludeReplaced(s, arguments, ["{"] + inside, Flattened(read));
      assert (["{"] + inside)[1..] == inside;
      TreesSkipped(children, ["}"] + rest, 0);
      MarkSkipped("}", rest, 0);
  }

  /** The tokens of an expanded list are those of the list with every include statement replaced, in place
      and at any depth. */
  lemma {:induction false} TreesInlined(s: Source, ds: seq<Directive>, rest: seq<string>, read: Reading)
    requires AllWordTrees(ds)
    ensures Inlined(s, FlattenAll(ds) + rest, true, Flattened(read))
         == FlattenAll(Splice(s, ds, read).directives) + Inlined(s, rest, true, Flattened(read))
    decreases ds, 1
  {
    if ds == [] {
      assert FlattenAll(ds) + rest == rest;
    } else {
      var head, tail := SpliceOne(s, ds[0], read).directives, Splice(s, ds[1..], read).directives;
      Regroup(Flatten(ds[0]), FlattenAll(ds[1..]), rest);
      TreeInlined(s, ds[0], FlattenAll(ds[1..]) + rest, read);
      TreesInlined(s, ds[1..], rest, read);
      FlattenAppend(head, tail);
      Regroup(FlattenAll(head), FlattenAll(tail), Inlined(s, rest, true, Flattened(read)));
    }
  }

  // ---------------------------------------------------------------- files

  /** Files hold trees of words, as those that were parsed do. */
  ghost predicate HoldsWords(s: Source) {
    forall file | s.content(file).Ok? :: AllWordTrees(s.content(file).value)
  }

  lemma HostHoldsWords(h: Host)
    ensures HoldsWords(SourceOf(h))
  {
    forall file | Content(h, file).Ok? ensures AllWordTrees(Content(h, file).value) {
      ParsedIsWords(Tokens(h.files[file].text).value);
    }
  }

  /** The tokens of what a file reads as, under any stack, are the file's own without empty statements, each
      include statement replaced by the tokens of what the matched files read as. */
  lemma FileIsInlined(h: Host, path: Path, stack: set<Path>)
    requires Load(SourceOf(h), path, stack).Read?
    ensures var s, file := SourceOf(h), Load(SourceOf(h), path, stack).resolved;
            && file in h.files && h.files[file].Text? && Tokens(h.files[file].text).Ok?
            && FlattenAll(ReadFile(s, path, stack).directives)
               == Inlined(s, DropEmpty(Tokens(h.files[file].text).value, true), true,
                          Flattened(ReadingUnder(s, stack + {file})))
  {
    var s := SourceOf(h);
    var loaded := Load(s, path, stack);
    var tokens := Tokens(h.files[loaded.resolved].text).value;
    var read := ReadingUnder(s, stack + {loaded.resolved});
    ParsedIsWords(tokens);
    ParseThenFlatten(tokens);
    WholeInlined(s, loaded.directives, read);
  }

  /** Inlining to a nesting depth, with no knowledge of the files being read. */
  function InlinedFile(s: Source, path: Path, depth: nat): seq<string>
    decreases depth, 0
  {
    if depth == 0 then []
    else
      match Load(s, path, {})
      case Read(_, directives) => Inlined(s, FlattenAll(directives), true, InlinedTo(s, depth - 1))
      case _ => []
  }

  function InlinedTo(s: Source, depth: nat): Replacement
    decreases depth, 1
  {
    path => InlinedFile(s, path, depth)
  }

  ghost predicate ReplaceSame(a: Replacement, b: Replacement) {
    forall path: Path :: a(path) == b(path)
  }

  lemma {:induction false} EachAgrees(paths: seq<Path>, a: Replacement, b: Replacement)
    requires ReplaceSame(a, b)
    ensures EachReplaced(paths, a) == EachReplaced(paths, b)
  {
    if paths != [] {
      EachAgrees(paths[1..], a, b);
    }
  }

  lemma {:induction false} InlinedAgrees(s: Source, tokens: seq<string>, first: bool, a: Replacement, b: Replacement)
    requires ReplaceSame(a, b)
    ensures Inlined(s, tokens, first, a) == Inlined(s, tokens, first, b)
    decreases |tokens|
  {
    if tokens == [] {
    } else if first && tokens[0] == "include" {
      var n := WordCount(tokens[1..]);
      EachAgrees(Matches(s, tokens[1..][..n]), a, b);
      InlinedAgrees(s, BehindStatement(tokens[1..][n..]), true, a, b);
    } else {
      InlinedAgrees(s, tokens[1..], IsPunctuation(tokens[0]), a, b);
    }
  }

  ghost predicate IsInlined(s: Source, path: Path, depth: nat) {
    FlattenAll(Substitute(s, path, depth).directives) == InlinedFile(s, path, depth)
  }

  lemma {:induction false} AllInlined(s: Source, depth: nat)
    requires HoldsWords(s)
    ensures forall path: Path :: IsInlined(s, path, depth)
    decreases depth, 1
  {
    forall path: Path ensures IsInlined(s, path, depth) {
      SubstituteIsInlined(s, path, depth);
    }
  }

  lemma {:induction false} SubstituteIsInlined(s: Source, path: Path, depth: nat)
    requires HoldsWords(s)
    ensures IsInlined(s, path, depth)
    decreases depth, 0
  {
    if depth > 0 && Load(s, path, {}).Read? {
      AllInlined(s, depth - 1);
      ReplacementsSame(s, depth - 1);
      InlinedInside(s, path, depth);
    } else {
      UnreadIsInlined(s, path, depth);
    }
  }

  lemma UnreadIsInlined(s: Source, path: Path, depth: nat)
    requires depth == 0 || !Load(s, path, {}).Read?
    ensures IsInlined(s, path, depth)
  {
  }

  lemma ReplacementsSame(s: Source, depth: nat)
    requires forall next: Path :: IsInlined(s, next, depth)
    ensures ReplaceSame(Flattened(SubstituteTo(s, depth)), InlinedTo(s, depth))
  {
    forall next: Path ensures Flattened(SubstituteTo(s, depth))(next) == InlinedTo(s, depth)(next) {
      assert IsInlined(s, next, depth);
    }
  }

  lemma InlinedInside(s: Source, path: Path, depth: nat)
    requires HoldsWords(s) && depth > 0 && Load(s, path, {}).Read?
    requires ReplaceSame(Flattened(SubstituteTo(s, depth - 1)), InlinedTo(s, depth - 1))
    ensures IsInlined(s, path, depth)
  {
    var directives, read := Load(s, path, {}).directives, SubstituteTo(s, depth - 1);
    WholeInlined(s, directives, read);
    InlinedAgrees(s, FlattenAll(directives), true, Flattened(read), InlinedTo(s, depth - 1));
  }

  lemma WholeInlined(s: Source, ds: seq<Directive>, read: Reading)
    requires AllWordTrees(ds)
    ensures Inlined(s, FlattenAll(ds), true, Flattened(read)) == FlattenAll(Splice(s, ds, read).directives)
  {
    TreesInlined(s, ds, [], read);
    assert FlattenAll(ds) + [] == FlattenAll(ds);
    var spliced := FlattenAll(Splice(s, ds, read).directives);
    assert spliced + [] == spliced;
  }

  /** On an acyclic include graph the tokens of what is read are those of the files inlined into each
      other, at every depth beyond the number of files; and these tokens determine what is read. */
  lemma AcyclicIsInlined(h: Host, path: Path, depth: nat)
    requires var s := SourceOf(h);
             && (forall paths: seq<Path> | Walk(s, paths) && paths[0] == path :: !Returns(s, paths, {}))
             && |s.files| < depth
    ensures FlattenAll(ReadFile(SourceOf(h), path, {}).directives) == InlinedFile(SourceOf(h), path, depth)
    ensures Parse(InlinedFile(SourceOf(h), path, depth), false) == Ok((ReadFile(SourceOf(h), path, {}).directives, []))
  {
    var s := SourceOf(h);
    HostHoldsWords(h);
    AcyclicIsSubstitution(s, path, depth);
    SubstituteIsInlined(s, path, depth);
    ReadIsWords(s, path, {});
    FlattenThenParse(ReadFile(s, path, {}).directives);
  }

  lemma {:induction false} ReadIsWords(s: Source, path: Path, stack: set<Path>)
    requires HoldsWords(s)
    ensures AllWordTrees(ReadFile(s, path, stack).directives)
    decreases Unvisited(s, stack)
  {
    var loaded := Load(s, path, stack);
    if loaded.Read? {
      Entering(s, path, stack);
      var below := stack + {loaded.resolved};
      forall next: Path ensures AllWordTrees(ReadingUnder(s, below)(next).directives) {
        ReadIsWords(s, next, below);
      }
      SpliceIsWords(s, loaded.directives, ReadingUnder(s, below));
    }
  }

  lemma {:induction false} EachIsWords(paths: seq<Path>, read: Reading)
    requires forall path: Path :: AllWordTrees(read(path).directives)
    ensures AllWordTrees(ReadEach(paths, read).directives)
  {
    if paths != [] {
      EachIsWords(paths[1..], read);
    }
  }

  lemma {:induction false} SpliceIsWords(s: Source, ds: seq<Directive>, read: Reading)
    requires AllWordTrees(ds) && forall path: Path :: AllWordTrees(read(path).directives)
    ensures AllWordTrees(Splice(s, ds, read).directives)
    decreases ds
  {
    if ds != [] {
      var d := ds[0];
      assert WordTree(d);
      if d.name == "include" {
        EachIsWords(Matches(s, d.arguments), read);
      } else if d.Block? {
        SpliceIsWords(s, d.children, read);
        assert WordTree(Block(d.name, d.arguments, Splice(s, d.children, read).directives));
      }
      SpliceIsWords(s, ds[1..], read);
    }
  }
}
