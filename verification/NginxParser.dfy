/** The recursive-descent parser of collectors/public_interfaces.py over a token list,
    and the grammar it accepts. */
module NginxParser {
  import opened Wrappers
  import opened NginxTokens

  /** A directive without a block, or with one: a missing block is distinct from an empty
      one. */
  datatype Directive =
    | Simple(name: string, arguments: seq<string>)
    | Block(name: string, arguments: seq<string>, children: seq<Directive>)

  // ---------------------------------------------------------------- the parser

  /** Directives, and the tokens left behind them. */
  type Parsed = Result<(seq<Directive>, seq<string>), SyntaxError>

  function Prepend(directives: seq<Directive>, rest: Parsed): Parsed {
    match rest
    case Ok((more, left)) => Ok((directives + more, left))
    case Err(e) => Err(e)
  }

  /** The number of words before the first punctuation token. */
  function WordCount(tokens: seq<string>): (n: nat)
    ensures n <= |tokens|
  {
    if tokens == [] || IsPunctuation(tokens[0]) then 0 else 1 + WordCount(tokens[1..])
  }

  /** What parsing `tokens` yields; `nested` says whether a closing brace is expected. */
  function Parse(tokens: seq<string>, nested: bool): (r: Parsed)
    ensures r.Ok? ==> |r.value.1| <= |tokens| && (nested ==> |r.value.1| < |tokens|)
    decreases |tokens|
  {
    if tokens == [] then
      if nested then Err(UnterminatedBlock) else Ok(([], []))
    else if tokens[0] == "}" then
      if nested then Ok(([], tokens[1..])) else Err(UnexpectedClosingBrace)
    else
      var n := WordCount(tokens);
      if n == 0 then
        if tokens[0] == ";" then Parse(tokens[1..], nested) else Err(MissingName)
      else AfterWords(tokens[..n], tokens[n..], nested)
  }

  /** The rest of a directive whose words have been read. */
  function AfterWords(words: seq<string>, rest: seq<string>, nested: bool): (r: Parsed)
    requires words != []
    ensures r.Ok? ==> |r.value.1| < |rest|
    decreases |rest|
  {
    if rest == [] || rest[0] == "}" then Err(MissingTerminator(words[0]))
    else if rest[0] == ";" then
      var more := Parse(rest[1..], nested);
      Prepend([Simple(words[0], words[1..])], more)
    else
      var block := Parse(rest[1..], true);
      if block.Err? then Err(block.error)
      else
        var more := Parse(block.value.1, nested);
        Prepend([Block(words[0], words[1..], block.value.0)], more)
  }

  /** The program counts tokens from the front; the parser above keeps what is left. */
  ghost predicate Agrees(r: Result<(seq<Directive>, nat), SyntaxError>, tokens: seq<string>, parsed: Parsed) {
    match r
    case Ok((directives, index)) => index <= |tokens| && parsed == Ok((directives, tokens[index..]))
    case Err(e) => parsed == Err(e)
  }

  method ParseDirectives(tokens: seq<string>, start: nat, nested: bool)
    returns (r: Result<(seq<Directive>, nat), SyntaxError>)
    requires start <= |tokens|
    ensures Agrees(r, tokens, Parse(tokens[start..], nested))
    ensures r.Ok? ==> start <= r.value.1 <= |tokens|
    decreases |tokens| - start, 1
  {
    var index := start;
    var directives: seq<Directive> := [];
    PrependNothing(Parse(tokens[start..], nested));
    while index < |tokens|
      invariant start <= index <= |tokens|
      invariant Parse(tokens[start..], nested) == Prepend(directives, Parse(tokens[index..], nested))
    {
      assert tokens[index..][0] == tokens[index] && tokens[index..][1..] == tokens[index + 1..];
      if tokens[index] == "}" {
        if !nested {
          return Err(UnexpectedClosingBrace);
        }
        PrependEnd(directives, tokens[index + 1..]);
        return Ok((directives, index + 1));
      }
      var statement := ParseStatement(tokens, index, nested);
      if statement.Err? {
        return Err(statement.error);
      }
      PrependTwice(directives, statement.value.0, Parse(tokens[statement.value.1..], nested));
      directives := directives + statement.value.0;
      index := statement.value.1;
    }
    PrependEnd(directives, []);
    if nested {
      return Err(UnterminatedBlock);
    }
    return Ok((directives, index));
  }

  /** One round of the loop: at most one directive, and where the next round starts. */
  method ParseStatement(tokens: seq<string>, start: nat, ghost nested: bool)
    returns (r: Result<(seq<Directive>, nat), SyntaxError>)
    requires start < |tokens| && tokens[start] != "}"
    ensures r.Ok? ==> start < r.value.1 <= |tokens|
    ensures Parse(tokens[start..], nested)
         == if r.Ok? then Prepend(r.value.0, Parse(tokens[r.value.1..], nested)) else Err(r.error)
    decreases |tokens| - start, 0
  {
    var words, index := ReadWords(tokens, start);
    if words == [] {
      Layout(tokens, start, start);
      NoWordsRead(tokens[start], tokens[start + 1..], nested);
      if index < |tokens| && tokens[index] == ";" {
        return Ok(([], index + 1));
      }
      return Err(MissingName);
    }
    Layout(tokens, start, index);
    WordsRead(words, tokens[index..], nested);
    if index >= |tokens| {
      return Err(MissingTerminator(words[0]));
    }
    if tokens[index] == "}" {
      return Err(MissingTerminator(words[0]));
    }
    if tokens[index] == ";" {
      return Ok(([Simple(words[0], words[1..])], index + 1));
    }
    var block := ParseDirectives(tokens, index + 1, true);
    if block.Err? {
      return Err(block.error);
    }
    return Ok(([Block(words[0], words[1..], block.value.0)], block.value.1));
  }

  lemma Layout(tokens: seq<string>, start: nat, index: nat)
    requires start <= index <= |tokens|
    ensures tokens[start..] == tokens[start..index] + tokens[index..]
    ensures index < |tokens| ==>
              tokens[index..] == [tokens[index]] + tokens[index + 1..] && tokens[index..][1..] == tokens[index + 1..]
  {
  }

  /** The inner loop: the words up to the next punctuation token. */
  method ReadWords(tokens: seq<string>, start: nat) returns (words: seq<string>, index: nat)
    requires start <= |tokens|
    ensures start <= index <= |tokens| && words == tokens[start..index] && Words(words)
    ensures index < |tokens| ==> IsPunctuation(tokens[index])
  {
    words, index := [], start;
    while index < |tokens| && !IsPunctuation(tokens[index])
      invariant start <= index <= |tokens|
      invariant words == tokens[start..index] && Words(words)
    {
      words := words + [tokens[index]];
      index := index + 1;
    }
  }

  lemma PrependTwice(a: seq<Directive>, b: seq<Directive>, rest: Parsed)
    ensures Prepend(a, Prepend(b, rest)) == Prepend(a + b, rest)
  {
    if rest.Ok? {
      assert a + (b + rest.value.0) == a + b + rest.value.0;
    }
  }

  lemma PrependEnd(directives: seq<Directive>, left: seq<string>)
    ensures Prepend(directives, Ok(([], left))) == Ok((directives, left))
  {
    assert directives + [] == directives;
  }

  lemma PrependNothing(rest: Parsed)
    ensures Prepend([], rest) == rest
  {
    if rest.Ok? {
      assert [] + rest.value.0 == rest.value.0;
    }
  }

  // ---------------------------------------------------------------- the grammar

  /** A statement of the grammar: `;`, or words and `;`, or words, `{`, statements and `}`. */
  datatype Statement =
    | Nothing
    | Line(name: string, arguments: seq<string>)
    | Group(name: string, arguments: seq<string>, body: seq<Statement>)

  ghost predicate Words(words: seq<string>) {
    forall w | w in words :: !IsPunctuation(w)
  }

  ghost predicate WellFormed(s: Statement) {
    match s
    case Nothing => true
    case Line(name, arguments) => Words([name] + arguments)
    case Group(name, arguments, body) => Words([name] + arguments) && AllWellFormed(body)
  }

  ghost predicate AllWellFormed(ss: seq<Statement>) {
    forall s | s in ss :: WellFormed(s)
  }

  ghost function Spell(s: Statement): seq<string> {
    match s
    case Nothing => [";"]
    case Line(name, arguments) => [name] + arguments + [";"]
    case Group(name, arguments, body) => [name] + arguments + (["{"] + (SpellAll(body) + ["}"]))
  }

  ghost function SpellAll(ss: seq<Statement>): seq<string> {
    if ss == [] then [] else Spell(ss[0]) + SpellAll(ss[1..])
  }

  /** The directives a statement stands for: an empty statement stands for none. */
  ghost function Meaning(s: Statement): seq<Directive> {
    match s
    case Nothing => []
    case Line(name, arguments) => [Simple(name, arguments)]
    case Group(name, arguments, body) => [Block(name, arguments, MeaningAll(body))]
  }

  ghost function MeaningAll(ss: seq<Statement>): seq<Directive> {
    if ss == [] then [] else Meaning(ss[0]) + MeaningAll(ss[1..])
  }

  lemma Cons(s: Statement, ss: seq<Statement>)
    ensures SpellAll([s] + ss) == Spell(s) + SpellAll(ss)
    ensures MeaningAll([s] + ss) == Meaning(s) + MeaningAll(ss)
    ensures AllWellFormed([s] + ss) <==> WellFormed(s) && AllWellFormed(ss)
  {
    assert ([s] + ss)[1..] == ss;
    assert s in [s] + ss;
    assert forall t | t in ss :: t in [s] + ss;
  }

  // ---------------------------------------------------------------- completeness

  lemma {:induction false} WordCountOf(words: seq<string>, rest: seq<string>)
    requires Words(words) && (rest == [] || IsPunctuation(rest[0]))
    ensures WordCount(words + rest) == |words|
  {
    if words == [] {
      assert words + rest == rest;
    } else {
      assert (words + rest)[1..] == words[1..] + rest;
      assert words[0] in words;
      WordCountOf(words[1..], rest);
    }
  }

  lemma WordsRead(words: seq<string>, rest: seq<string>, nested: bool)
    requires words != [] && Words(words) && (rest == [] || IsPunctuation(rest[0]))
    ensures Parse(words + rest, nested) == AfterWords(words, rest, nested)
  {
    WordCountOf(words, rest);
    assert words[0] in words;
    assert (words + rest)[..|words|] == words && (words + rest)[|words|..] == rest;
  }

  lemma LineRead(name: string, arguments: seq<string>, rest: seq<string>, nested: bool)
    requires Words([name] + arguments)
    ensures Parse([name] + arguments + ([";"] + rest), nested)
         == Prepend([Simple(name, arguments)], Parse(rest, nested))
  {
    var words := [name] + arguments;
    WordsRead(words, [";"] + rest, nested);
    assert words[0] == name && words[1..] == arguments && ([";"] + rest)[1..] == rest;
  }

  lemma GroupRead(name: string, arguments: seq<string>, body: seq<string>, nested: bool)
    requires Words([name] + arguments)
    ensures Parse([name] + arguments + (["{"] + body), nested)
         == if Parse(body, true).Err? then Err(Parse(body, true).error)
            else Prepend([Block(name, arguments, Parse(body, true).value.0)],
                         Parse(Parse(body, true).value.1, nested))
  {
    var words := [name] + arguments;
    WordsRead(words, ["{"] + body, nested);
    assert words[0] == name && words[1..] == arguments && (["{"] + body)[1..] == body;
  }

  lemma NoWordsRead(mark: string, rest: seq<string>, nested: bool)
    requires IsPunctuation(mark) && mark != "}"
    ensures Parse([mark] + rest, nested)
         == if mark == ";" then Prepend([], Parse(rest, nested)) else Err(MissingName)
  {
    assert ([mark] + rest)[1..] == rest;
    PrependNothing(Parse(rest, nested));
  }

  lemma CloseRead(rest: seq<string>)
    ensures Parse(["}"] + rest, true) == Ok(([], rest))
  {
    assert (["}"] + rest)[1..] == rest;
  }

  /** The parser steps over a spelled statement and goes on behind it. */
  lemma {:induction false} StatementRead(s: Statement, rest: seq<string>, nested: bool)
    requires WellFormed(s)
    ensures Parse(Spell(s) + rest, nested) == Prepend(Meaning(s), Parse(rest, nested))
    decreases s, 0
  {
    match s
    case Nothing =>
      NoWordsRead(";", rest, nested);
    case Line(name, arguments) =>
      assert Spell(s) + rest == [name] + arguments + ([";"] + rest);
      LineRead(name, arguments, rest, nested);
    case Group(name, arguments, body) =>
      var inside := SpellAll(body) + (["}"] + rest);
      SpellGroup(name, arguments, SpellAll(body), rest);
      GroupRead(name, arguments, inside, nested);
      AllRead(body, ["}"] + rest, true);
      CloseRead(rest);
      PrependEnd(MeaningAll(body), rest);
  }

  lemma SpellGroup(name: string, arguments: seq<string>, body: seq<string>, rest: seq<string>)
    ensures [name] + arguments + (["{"] + (body + ["}"])) + rest
         == [name] + arguments + (["{"] + (body + (["}"] + rest)))
  {
    var words := [name] + arguments;
    assert words + (["{"] + (body + ["}"])) + rest == words + ((["{"] + (body + ["}"])) + rest);
    assert (["{"] + (body + ["}"])) + rest == ["{"] + ((body + ["}"]) + rest);
    assert (body + ["}"]) + rest == body + (["}"] + rest);
  }

  lemma {:induction false} AllRead(ss: seq<Statement>, rest: seq<string>, nested: bool)
    requires AllWellFormed(ss)
    ensures Parse(SpellAll(ss) + rest, nested) == Prepend(MeaningAll(ss), Parse(rest, nested))
    decreases ss, 1
  {
    if ss == [] {
      assert SpellAll(ss) + rest == rest;
      PrependNothing(Parse(rest, nested));
      return;
    }
    var s, more := ss[0], ss[1..];
    assert ss == [s] + more;
    Cons(s, more);
    assert SpellAll(ss) + rest == Spell(s) + (SpellAll(more) + rest);
    StatementRead(s, SpellAll(more) + rest, nested);
    AllRead(more, rest, nested);
    PrependTwice(Meaning(s), MeaningAll(more), Parse(rest, nested));
  }

  // ---------------------------------------------------------------- soundness

  /** `ss` is a sentence that spells `tokens` up to what is left, the closing brace of a
      nested list aside, and means `directives`. */
  ghost predicate Explains(ss: seq<Statement>, tokens: seq<string>, nested: bool,
                           directives: seq<Directive>, left: seq<string>) {
    && AllWellFormed(ss)
    && MeaningAll(ss) == directives
    && tokens == SpellAll(ss) + (if nested then ["}"] + left else left)
    && (!nested ==> left == [])
  }

  lemma Extend(s: Statement, ss: seq<Statement>, tokens: seq<string>, rest: seq<string>, nested: bool,
               directives: seq<Directive>, left: seq<string>)
    requires WellFormed(s) && tokens == Spell(s) + rest
    requires Explains(ss, rest, nested, directives, left)
    ensures Explains([s] + ss, tokens, nested, Meaning(s) + directives, left)
  {
    Cons(s, ss);
    var tail := if nested then ["}"] + left else left;
    assert Spell(s) + SpellAll(ss) + tail == Spell(s) + (SpellAll(ss) + tail);
  }

  lemma {:induction false} WordsCounted(tokens: seq<string>)
    ensures Words(tokens[..WordCount(tokens)])
    ensures WordCount(tokens) < |tokens| ==> IsPunctuation(tokens[WordCount(tokens)])
  {
    if WordCount(tokens) > 0 {
      WordsCounted(tokens[1..]);
      assert tokens[..WordCount(tokens)] == [tokens[0]] + tokens[1..][..WordCount(tokens[1..])];
    }
  }

  /** The tokens in front of the parser, taken apart: words, a mark and what follows. */
  lemma Apart(tokens: seq<string>) returns (name: string, arguments: seq<string>, mark: string, rest: seq<string>)
    requires 0 < WordCount(tokens) < |tokens|
    ensures Words([name] + arguments) && IsPunctuation(mark)
    ensures tokens == [name] + arguments + ([mark] + rest)
    ensures tokens[0] == name && tokens[WordCount(tokens)] == mark
  {
    var n := WordCount(tokens);
    WordsCounted(tokens);
    name, arguments, mark, rest := tokens[0], tokens[1..n], tokens[n], tokens[n + 1..];
    assert [name] + arguments == tokens[..n];
    assert [mark] + rest == tokens[n..];
  }

  /** Soundness: what the parser consumes is a sentence with the meaning it returns. */
  lemma {:induction false} ParseSound(tokens: seq<string>, nested: bool) returns (ss: seq<Statement>)
    requires Parse(tokens, nested).Ok?
    ensures Explains(ss, tokens, nested, Parse(tokens, nested).value.0, Parse(tokens, nested).value.1)
    decreases |tokens|
  {
    if tokens == [] {
      return [];
    }
    if tokens[0] == "}" {
      assert tokens == ["}"] + tokens[1..];
      return [];
    }
    if WordCount(tokens) == 0 {
      var more := ParseSound(tokens[1..], nested);
      var (directives, left) := Parse(tokens[1..], nested).value;
      assert tokens == [";"] + tokens[1..];
      Extend(Nothing, more, tokens, tokens[1..], nested, directives, left);
      ss := [Nothing] + more;
      return;
    }
    var name, arguments, mark, rest := Apart(tokens);
    if mark == ";" {
      LineRead(name, arguments, rest, nested);
      var more := ParseSound(rest, nested);
      ss := LineSound(name, arguments, rest, nested, more);
    } else {
      GroupRead(name, arguments, rest, nested);
      var body := ParseSound(rest, true);
      var more := ParseSound(Parse(rest, true).value.1, nested);
      ss := GroupSound(name, arguments, rest, nested, body, more);
    }
  }

  lemma LineSound(name: string, arguments: seq<string>, rest: seq<string>, nested: bool, more: seq<Statement>)
    returns (ss: seq<Statement>)
    requires Words([name] + arguments) && Parse(rest, nested).Ok?
    requires Explains(more, rest, nested, Parse(rest, nested).value.0, Parse(rest, nested).value.1)
    ensures Explains(ss, [name] + arguments + ([";"] + rest), nested,
                     [Simple(name, arguments)] + Parse(rest, nested).value.0, Parse(rest, nested).value.1)
  {
    var (directives, left) := Parse(rest, nested).value;
    var s := Line(name, arguments);
    assert [name] + arguments + ([";"] + rest) == Spell(s) + rest;
    Extend(s, more, [name] + arguments + ([";"] + rest), rest, nested, directives, left);
    ss := [s] + more;
  }

  lemma GroupSound(name: string, arguments: seq<string>, rest: seq<string>, nested: bool,
                   body: seq<Statement>, more: seq<Statement>)
    returns (ss: seq<Statement>)
    requires Words([name] + arguments) && Parse(rest, true).Ok?
    requires var (children, after) := Parse(rest, true).value;
             && Explains(body, rest, true, children, after)
             && Parse(after, nested).Ok?
             && Explains(more, after, nested, Parse(after, nested).value.0, Parse(after, nested).value.1)
    ensures var (children, after) := Parse(rest, true).value;
            Explains(ss, [name] + arguments + (["{"] + rest), nested,
                     [Block(name, arguments, children)] + Parse(after, nested).value.0,
                     Parse(after, nested).value.1)
  {
    var (children, after) := Parse(rest, true).value;
    var (directives, left) := Parse(after, nested).value;
    var s := Group(name, arguments, body);
    SpellGroup(name, arguments, SpellAll(body), after);
    Extend(s, more, [name] + arguments + (["{"] + rest), after, nested, directives, left);
    ss := [s] + more;
  }

  // ---------------------------------------------------------------- main results

  /** `tokens` is a sentence of the grammar that means `directives`. */
  ghost predicate Denotes(tokens: seq<string>, directives: seq<Directive>) {
    exists ss: seq<Statement> :: AllWellFormed(ss) && SpellAll(ss) == tokens && MeaningAll(ss) == directives
  }

  /** The parser recognises exactly the grammar, consumes every token and returns the
      meaning, which is therefore unique. */
  lemma ParserIsGrammar(tokens: seq<string>, directives: seq<Directive>)
    ensures Denotes(tokens, directives) <==> Parse(tokens, false) == Ok((directives, []))
    ensures Parse(tokens, false).Ok? ==> Parse(tokens, false).value.1 == []
  {
    if Parse(tokens, false).Ok? {
      var ss := ParseSound(tokens, false);
      assert SpellAll(ss) + [] == SpellAll(ss);
    }
    forall ss: seq<Statement> | AllWellFormed(ss) && SpellAll(ss) == tokens
      ensures Parse(tokens, false) == Ok((MeaningAll(ss), []))
    {
      AllRead(ss, [], false);
      assert SpellAll(ss) + [] == SpellAll(ss);
      PrependEnd(MeaningAll(ss), []);
    }
  }

  /** The token list a directive tree flattens to. */
  function Flatten(d: Directive): seq<string> {
    match d
    case Simple(name, arguments) => [name] + arguments + [";"]
    case Block(name, arguments, children) => [name] + arguments + (["{"] + (FlattenAll(children) + ["}"]))
  }

  function FlattenAll(ds: seq<Directive>): seq<string> {
    if ds == [] then [] else Flatten(ds[0]) + FlattenAll(ds[1..])
  }

  /** The words of the tree are words: what the parser returns, and what flattening keeps apart. */
  ghost predicate WordTree(d: Directive) {
    Words([d.name] + d.arguments) && (d.Block? ==> AllWordTrees(d.children))
  }

  ghost predicate AllWordTrees(ds: seq<Directive>) {
    forall d | d in ds :: WordTree(d)
  }

  lemma {:induction false} MeaningIsWords(ss: seq<Statement>)
    requires AllWellFormed(ss)
    ensures AllWordTrees(MeaningAll(ss))
    decreases ss
  {
    if ss != [] {
      assert WellFormed(ss[0]);
      if ss[0].Group? {
        MeaningIsWords(ss[0].body);
      }
      MeaningIsWords(ss[1..]);
    }
  }

  lemma ParsedIsWords(tokens: seq<string>)
    requires Parse(tokens, false).Ok?
    ensures AllWordTrees(Parse(tokens, false).value.0)
  {
    var ss := ParseSound(tokens, false);
    MeaningIsWords(ss);
  }

  /** The statements of a tree: one per directive, none empty. */
  lemma {:induction false} Concrete(ds: seq<Directive>) returns (ss: seq<Statement>)
    requires AllWordTrees(ds)
    ensures AllWellFormed(ss) && SpellAll(ss) == FlattenAll(ds) && MeaningAll(ss) == ds
    decreases ds
  {
    if ds == [] {
      return [];
    }
    var d := ds[0];
    assert WordTree(d);
    var rest := Concrete(ds[1..]);
    var s;
    match d {
      case Simple(name, arguments) =>
        s := Line(name, arguments);
      case Block(name, arguments, children) =>
        var body := Concrete(children);
        s := Group(name, arguments, body);
    }
    Cons(s, rest);
    ss := [s] + rest;
    assert ds == [d] + ds[1..];
  }

  /** Parsing what a tree of words flattens to gives the tree back; so no two flatten alike. */
  lemma FlattenThenParse(ds: seq<Directive>)
    requires AllWordTrees(ds)
    ensures Parse(FlattenAll(ds), false) == Ok((ds, []))
  {
    var ss := Concrete(ds);
    assert Denotes(FlattenAll(ds), ds);
    ParserIsGrammar(FlattenAll(ds), ds);
  }

  /** `tokens` without each `;` that ends no words: one that comes first or right after
      another punctuation token. `blank` says that no word precedes `tokens`. */
  function DropEmpty(tokens: seq<string>, blank: bool): seq<string> {
    if tokens == [] then []
    else if tokens[0] == ";" && blank then DropEmpty(tokens[1..], true)
    else [tokens[0]] + DropEmpty(tokens[1..], IsPunctuation(tokens[0]))
  }

  /** Flattening what was parsed gives the tokens back, less the empty statements. */
  lemma ParseThenFlatten(tokens: seq<string>)
    requires Parse(tokens, false).Ok?
    ensures FlattenAll(Parse(tokens, false).value.0) == DropEmpty(tokens, true)
  {
    var ss := ParseSound(tokens, false);
    AllKept(ss, []);
    assert FlattenAll(MeaningAll(ss)) + [] == FlattenAll(MeaningAll(ss));
  }

  lemma MarkKept(mark: string, rest: seq<string>, blank: bool)
    requires IsPunctuation(mark) && (mark == ";" ==> !blank)
    ensures DropEmpty([mark] + rest, blank) == [mark] + DropEmpty(rest, true)
  {
    assert ([mark] + rest)[1..] == rest;
  }

  lemma {:induction false} WordsKept(words: seq<string>, rest: seq<string>, blank: bool)
    requires Words(words) && words != []
    ensures DropEmpty(words + rest, blank) == words + DropEmpty(rest, false)
    decreases words
  {
    assert (words + rest)[1..] == words[1..] + rest;
    assert words[0] in words;
    if |words| > 1 {
      WordsKept(words[1..], rest, false);
    } else {
      assert words[1..] + rest == rest;
    }
  }

  lemma {:induction false} StatementKept(s: Statement, rest: seq<string>)
    requires WellFormed(s)
    ensures DropEmpty(Spell(s) + rest, true) == FlattenAll(Meaning(s)) + DropEmpty(rest, true)
    decreases s, 0
  {
    match s
    case Nothing =>
      assert ([";"] + rest)[1..] == rest;
    case Line(name, arguments) =>
      var words := [name] + arguments;
      assert words + [";"] + rest == words + ([";"] + rest);
      WordsKept(words, [";"] + rest, true);
      MarkKept(";", rest, false);
      FlattenOne(Simple(name, arguments));
    case Group(name, arguments, body) =>
      var inside := SpellAll(body) + (["}"] + rest);
      SpellGroup(name, arguments, SpellAll(body), rest);
      WordsKept([name] + arguments, ["{"] + inside, true);
      MarkKept("{", inside, false);
      AllKept(body, ["}"] + rest);
      MarkKept("}", rest, true);
      FlattenOne(Block(name, arguments, MeaningAll(body)));
      SpellGroup(name, arguments, FlattenAll(MeaningAll(body)), DropEmpty(rest, true));
  }

  lemma FlattenOne(d: Directive)
    ensures FlattenAll([d]) == Flatten(d)
  {
    assert FlattenAll([d]) == Flatten(d) + FlattenAll([]);
  }

  lemma {:induction false} FlattenAppend(a: seq<Directive>, b: seq<Directive>)
    ensures FlattenAll(a + b) == FlattenAll(a) + FlattenAll(b)
    decreases a
  {
    if a == [] {
      assert a + b == b;
    } else {
      assert (a + b)[1..] == a[1..] + b;
      FlattenAppend(a[1..], b);
    }
  }

  lemma {:induction false} AllKept(ss: seq<Statement>, rest: seq<string>)
    requires AllWellFormed(ss)
    ensures DropEmpty(SpellAll(ss) + rest, true) == FlattenAll(MeaningAll(ss)) + DropEmpty(rest, true)
    decreases ss, 1
  {
    if ss == [] {
      assert SpellAll(ss) + rest == rest;
      return;
    }
    var s, more := ss[0], ss[1..];
    assert SpellAll(ss) + rest == Spell(s) + (SpellAll(more) + rest);
    StatementKept(s, SpellAll(more) + rest);
    AllKept(more, rest);
    FlattenAppend(Meaning(s), MeaningAll(more));
  }

  /** What the reader makes of a text. */
  function Directives(text: string): Result<seq<Directive>, SyntaxError> {
    match Tokens(text)
    case Err(e) => Err(e)
    case Ok(tokens) =>
      match Parse(tokens, false)
      case Err(e) => Err(e)
      case Ok((directives, _)) => Ok(directives)
  }
}
