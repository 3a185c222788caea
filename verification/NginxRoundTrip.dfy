/** Printing a directive tree with every word quoted, and reading it back through the
    tokeniser and the parser. */
module NginxRoundTrip {
  import opened Wrappers
  import opened NginxTokens
  import opened NginxParser

  function Escape(word: string): string {
    if word == "" then ""
    else (if word[0] == '"' || word[0] == '\\' then ['\\', word[0]] else [word[0]]) + Escape(word[1..])
  }

  function PrintWord(word: string): string {
    "\"" + (Escape(word) + "\" ")
  }

  function PrintWords(words: seq<string>): string {
    if words == [] then "" else PrintWord(words[0]) + PrintWords(words[1..])
  }

  function Print(d: Directive): string {
    match d
    case Simple(name, arguments) => PrintWords([name] + arguments) + ";"
    case Block(name, arguments, children) => PrintWords([name] + arguments) + ("{" + (PrintAll(children) + "}"))
  }

  function PrintAll(ds: seq<Directive>): string {
    if ds == [] then "" else Print(ds[0]) + PrintAll(ds[1..])
  }

  /** A word the reader can tell from punctuation and from nothing at all. */
  ghost predicate Printable(words: seq<string>) {
    Words(words) && "" !in words
  }

  ghost predicate PrintableTree(d: Directive) {
    Printable([d.name] + d.arguments) && (d.Block? ==> AllPrintable(d.children))
  }

  ghost predicate AllPrintable(ds: seq<Directive>) {
    forall d | d in ds :: PrintableTree(d)
  }

  ghost predicate ReadsBack(ds: seq<Directive>) {
    var tokens := Tokens(PrintAll(ds));
    tokens.Ok? && Parse(tokens.value, false) == Ok((ds, []))
  }

  /** Reading back what was printed gives the same tree, and consumes every token, exactly
      when no word is empty and none is a punctuation token. */
  lemma RoundTrip(ds: seq<Directive>)
    ensures ReadsBack(ds) <==> AllPrintable(ds)
  {
    if AllPrintable(ds) {
      RunAll(ds, []);
      assert [] + FlattenAll(ds) == FlattenAll(ds);
      PrintableIsWords(ds);
      FlattenThenParse(ds);
    }
    if ReadsBack(ds) {
      var tokens := Tokens(PrintAll(ds)).value;
      TokensNonEmpty(START, PrintAll(ds));
      ParserIsGrammar(tokens, ds);
      var ss :| AllWellFormed(ss) && SpellAll(ss) == tokens && MeaningAll(ss) == ds;
      MeaningPrintable(ss);
    }
  }

  // ---------------------------------------------------------------- through the tokeniser

  lemma {:induction false} RunEscape(word: string, before: string, tokens: seq<string>)
    ensures Run(Scan(Quoted('"'), before, tokens), Escape(word)) == Scan(Quoted('"'), before + word, tokens)
    decreases word
  {
    if word == "" {
      assert before + word == before;
      return;
    }
    var s := Scan(Quoted('"'), before, tokens);
    var next := Scan(Quoted('"'), before + [word[0]], tokens);
    assert before + [word[0]] + word[1..] == before + word;
    RunEscape(word[1..], before + [word[0]], tokens);
    if word[0] == '"' || word[0] == '\\' {
      var e := ['\\', word[0]];
      RunAppend(s, e, Escape(word[1..]));
      assert e[1..] == [word[0]] && [word[0]][1..] == "";
      assert Run(s, e) == Run(Step(s, '\\'), [word[0]]) == next;
    } else {
      RunAppend(s, [word[0]], Escape(word[1..]));
    }
  }

  ghost function Blank(tokens: seq<string>): Scan {
    Scan(Plain, "", tokens)
  }

  lemma RunWord(word: string, tokens: seq<string>)
    ensures Run(Blank(tokens), PrintWord(word)) == Blank(Flush(tokens, word))
  {
    var s := Scan(Quoted('"'), "", tokens);
    var inner := Escape(word) + "\" ";
    assert ("\"" + inner)[1..] == inner;
    RunAppend(s, Escape(word), "\" ");
    RunEscape(word, "", tokens);
    assert "" + word == word;
    var t := Scan(Quoted('"'), word, tokens);
    assert "\" "[1..] == " " && " "[1..] == "";
    assert Run(t, "\" ") == Run(Step(t, '"'), " ");
  }

  lemma {:induction false} RunWords(words: seq<string>, tokens: seq<string>)
    requires "" !in words
    ensures Run(Blank(tokens), PrintWords(words)) == Blank(tokens + words)
    decreases words
  {
    if words == [] {
      assert tokens + words == tokens;
    } else {
      RunAppend(Blank(tokens), PrintWord(words[0]), PrintWords(words[1..]));
      RunWord(words[0], tokens);
      RunWords(words[1..], tokens + [words[0]]);
      assert tokens + [words[0]] + words[1..] == tokens + words;
    }
  }

  /** Text that adds the tokens `a`, followed by text that adds `b`. */
  lemma RunBoth(tokens: seq<string>, x: string, a: seq<string>, y: string, b: seq<string>)
    requires Run(Blank(tokens), x) == Blank(tokens + a)
    requires Run(Blank(tokens + a), y) == Blank(tokens + a + b)
    ensures Run(Blank(tokens), x + y) == Blank(tokens + (a + b))
  {
    RunAppend(Blank(tokens), x, y);
    assert tokens + a + b == tokens + (a + b);
  }

  lemma RunMark(mark: char, tokens: seq<string>)
    requires IsPunctuation([mark])
    ensures Run(Blank(tokens), [mark]) == Blank(tokens + [[mark]])
  {
    assert [mark][1..] == "";
  }

  lemma {:induction false} RunTree(d: Directive, tokens: seq<string>)
    requires PrintableTree(d)
    ensures Run(Blank(tokens), Print(d)) == Blank(tokens + Flatten(d))
    decreases d, 0
  {
    var words := [d.name] + d.arguments;
    RunWords(words, tokens);
    match d
    case Simple(_, _) =>
      RunMark(';', tokens + words);
      RunBoth(tokens, PrintWords(words), words, ";", [";"]);
    case Block(_, _, children) =>
      RunBlock(children, tokens + words);
      RunBoth(tokens, PrintWords(words), words, "{" + (PrintAll(children) + "}"),
              ["{"] + (FlattenAll(children) + ["}"]));
  }

  lemma {:induction false} RunBlock(children: seq<Directive>, tokens: seq<string>)
    requires AllPrintable(children)
    ensures Run(Blank(tokens), "{" + (PrintAll(children) + "}"))
         == Blank(tokens + (["{"] + (FlattenAll(children) + ["}"])))
    decreases children, 2
  {
    RunMark('{', tokens);
    RunAll(children, tokens + ["{"]);
    RunMark('}', tokens + ["{"] + FlattenAll(children));
    RunBoth(tokens + ["{"], PrintAll(children), FlattenAll(children), "}", ["}"]);
    RunBoth(tokens, "{", ["{"], PrintAll(children) + "}", FlattenAll(children) + ["}"]);
  }

  lemma {:induction false} RunAll(ds: seq<Directive>, tokens: seq<string>)
    requires AllPrintable(ds)
    ensures Run(Blank(tokens), PrintAll(ds)) == Blank(tokens + FlattenAll(ds))
    decreases ds, 1
  {
    if ds == [] {
      assert tokens + FlattenAll(ds) == tokens;
    } else {
      RunTree(ds[0], tokens);
      RunAll(ds[1..], tokens + Flatten(ds[0]));
      RunBoth(tokens, Print(ds[0]), Flatten(ds[0]), PrintAll(ds[1..]), FlattenAll(ds[1..]));
    }
  }

  // ---------------------------------------------------------------- through the grammar

  lemma {:induction false} PrintableIsWords(ds: seq<Directive>)
    requires AllPrintable(ds)
    ensures AllWordTrees(ds)
    decreases ds
  {
    forall d | d in ds ensures WordTree(d) {
      assert PrintableTree(d);
      if d.Block? {
        PrintableIsWords(d.children);
      }
    }
  }

  lemma {:induction false} MeaningPrintable(ss: seq<Statement>)
    requires AllWellFormed(ss) && "" !in SpellAll(ss)
    ensures AllPrintable(MeaningAll(ss))
    decreases ss
  {
    if ss == [] {
      return;
    }
    var s := ss[0];
    assert WellFormed(s);
    assert "" !in Spell(s) && "" !in SpellAll(ss[1..]);
    MeaningPrintable(ss[1..]);
    if s.Group? {
      assert "" !in SpellAll(s.body);
      MeaningPrintable(s.body);
    }
  }
}
