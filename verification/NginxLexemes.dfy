/** The lexical grammar of nginx configurations, and the tokeniser as its recogniser: bare and quoted
    pieces of words, escapes, comments, punctuation and any layout (collectors/public_interfaces.py). */
module NginxLexemes {
  import opened Wrappers
  import opened Text
  import opened NginxTokens
  import opened NginxParser

  /** A character between quotes: itself, or any character behind a backslash. */
  datatype Inner = Raw(c: char) | Slashed(c: char)

  /** A piece of text; adjacent `Bare` and `Quotation` pieces make one word. */
  datatype Lexeme =
    | Blank(c: char)
    | Note(text: string)
    | Mark(c: char)
    | Bare(c: char)
    | Quotation(quote: char, inside: seq<Inner>)

  ghost predicate InsideOf(quote: char, inside: seq<Inner>) {
    forall i | i in inside && i.Raw? :: i.c != quote && i.c != '\\'
  }

  ghost predicate Lawful(l: Lexeme) {
    match l
    case Blank(c) => IsSpace(c)
    case Note(text) => '\n' !in text
    case Mark(c) => c == '{' || c == '}' || c == ';'
    case Bare(c) =>
      !IsSpace(c) && c != '{' && c != '}' && c != ';' && c != '#' && c != '\'' && c != '"'
    case Quotation(quote, inside) => (quote == '\'' || quote == '"') && InsideOf(quote, inside)
  }

  ghost predicate AllLawful(ls: seq<Lexeme>) {
    forall l | l in ls :: Lawful(l)
  }

  function SpellInside(inside: seq<Inner>): string {
    if inside == [] then ""
    else (if inside[0].Raw? then [inside[0].c] else ['\\', inside[0].c]) + SpellInside(inside[1..])
  }

  function Content(inside: seq<Inner>): string {
    if inside == [] then "" else [inside[0].c] + Content(inside[1..])
  }

  function SpellLexeme(l: Lexeme): string {
    match l
    case Blank(c) => [c]
    case Note(text) => "#" + (text + "\n")
    case Mark(c) => [c]
    case Bare(c) => [c]
    case Quotation(quote, inside) => [quote] + (SpellInside(inside) + [quote])
  }

  function SpellLexemes(ls: seq<Lexeme>): string {
    if ls == [] then "" else SpellLexeme(ls[0]) + SpellLexemes(ls[1..])
  }

  /** The words and marks of the lexemes; `word` is what the word at the front has so far. */
  function WordsOf(ls: seq<Lexeme>, word: string): seq<string> {
    var done := if word == "" then [] else [word];
    if ls == [] then done
    else match ls[0]
         case Blank(_) => done + WordsOf(ls[1..], "")
         case Note(_) => done + WordsOf(ls[1..], "")
         case Mark(c) => done + ([[c]] + WordsOf(ls[1..], ""))
         case Bare(c) => WordsOf(ls[1..], word + [c])
         case Quotation(_, inside) => WordsOf(ls[1..], word + Content(inside))
  }

  /** A comment that the text ends in. */
  ghost predicate LastNote(text: string) {
    text == "" || (text[0] == '#' && '\n' !in text)
  }

  ghost predicate Spells(ls: seq<Lexeme>, last: string, text: string) {
    AllLawful(ls) && LastNote(last) && text == SpellLexemes(ls) + last
  }

  /** The text is made of lawful lexemes with these words and marks. */
  ghost predicate Lexes(text: string, tokens: seq<string>) {
    exists ls, last :: Spells(ls, last, text) && WordsOf(ls, "") == tokens
  }

  // ---------------------------------------------------------------- the tokeniser follows the lexemes

  lemma {:induction false} RunInside(quote: char, inside: seq<Inner>, word: string, tokens: seq<string>)
    requires InsideOf(quote, inside) && quote != '\\'
    ensures Run(Scan(Mode.Quoted(quote), word, tokens), SpellInside(inside))
         == Scan(Mode.Quoted(quote), word + Content(inside), tokens)
  {
    if inside == [] {
      assert word + "" == word;
    } else {
      var s, i := Scan(Mode.Quoted(quote), word, tokens), inside[0];
      assert i in inside;
      assert forall j | j in inside[1..] :: j in inside;
      RunInside(quote, inside[1..], word + [i.c], tokens);
      assert (word + [i.c]) + Content(inside[1..]) == word + Content(inside);
      if i.Raw? {
        RunAppend(s, [i.c], SpellInside(inside[1..]));
        assert [i.c][1..] == "";
      } else {
        var e := ['\\', i.c];
        RunAppend(s, e, SpellInside(inside[1..]));
        assert e[1..] == [i.c] && [i.c][1..] == "";
      }
    }
  }

  lemma RunOne(s: Scan, c: char)
    ensures Run(s, [c]) == Step(s, c)
  {
    assert [c][1..] == "";
  }

  lemma RunQuoted(quote: char, inside: seq<Inner>, word: string, tokens: seq<string>)
    requires (quote == '\'' || quote == '"') && InsideOf(quote, inside)
    ensures Run(Scan(Plain, word, tokens), [quote] + (SpellInside(inside) + [quote]))
         == Scan(Plain, word + Content(inside), tokens)
  {
    var s, open := Scan(Plain, word, tokens), Scan(Mode.Quoted(quote), word, tokens);
    RunAppend(s, [quote], SpellInside(inside) + [quote]);
    RunOne(s, quote);
    RunAppend(open, SpellInside(inside), [quote]);
    RunInside(quote, inside, word, tokens);
    RunOne(Scan(Mode.Quoted(quote), word + Content(inside), tokens), quote);
  }

  lemma RunNote(text: string, word: string, tokens: seq<string>)
    requires '\n' !in text
    ensures Run(Scan(Plain, word, tokens), "#" + (text + "\n")) == Scan(Plain, "", Flush(tokens, word))
  {
    var s, entered := Scan(Plain, word, tokens), Scan(Comment, "", Flush(tokens, word));
    RunAppend(s, "#", text + "\n");
    RunOne(s, '#');
    RunAppend(entered, text, "\n");
    RunComment(entered, text);
    RunOne(entered, '\n');
  }

  /** What one lexeme makes of the word at hand and the tokens. */
  function After(l: Lexeme, word: string, tokens: seq<string>): Scan {
    match l
    case Blank(_) => Scan(Plain, "", Flush(tokens, word))
    case Note(_) => Scan(Plain, "", Flush(tokens, word))
    case Mark(c) => Scan(Plain, "", Flush(tokens, word) + [[c]])
    case Bare(c) => Scan(Plain, word + [c], tokens)
    case Quotation(_, inside) => Scan(Plain, word + Content(inside), tokens)
  }

  lemma RunLexeme(l: Lexeme, word: string, tokens: seq<string>)
    requires Lawful(l)
    ensures Run(Scan(Plain, word, tokens), SpellLexeme(l)) == After(l, word, tokens)
  {
    match l
    case Blank(c) => RunOne(Scan(Plain, word, tokens), c);
    case Note(text) => RunNote(text, word, tokens);
    case Mark(c) =>
      assert c == '{' || c == '}' || c == ';';
      RunOne(Scan(Plain, word, tokens), c);
    case Bare(c) => RunOne(Scan(Plain, word, tokens), c);
    case Quotation(quote, inside) => RunQuoted(quote, inside, word, tokens);
  }

  lemma WordsAfter(l: Lexeme, ls: seq<Lexeme>, word: string, tokens: seq<string>)
    ensures var after := After(l, word, tokens);
            after.tokens + WordsOf(ls, after.current) == tokens + WordsOf([l] + ls, word)
  {
    assert ([l] + ls)[1..] == ls;
  }

  /** The tokeniser reads any lexemes as their words and marks. */
  lemma {:induction false} RunLexemes(ls: seq<Lexeme>, last: string, word: string, tokens: seq<string>)
    requires AllLawful(ls) && LastNote(last)
    ensures Finish(Run(Scan(Plain, word, tokens), SpellLexemes(ls) + last)) == Ok(tokens + WordsOf(ls, word))
    decreases ls
  {
    if ls == [] {
      assert SpellLexemes(ls) + last == last;
      RunLast(last, word, tokens);
    } else {
      var after := After(ls[0], word, tokens);
      assert Lawful(ls[0]);
      assert SpellLexemes(ls) + last == SpellLexeme(ls[0]) + (SpellLexemes(ls[1..]) + last);
      RunAppend(Scan(Plain, word, tokens), SpellLexeme(ls[0]), SpellLexemes(ls[1..]) + last);
      RunLexeme(ls[0], word, tokens);
      RunLexemes(ls[1..], last, after.current, after.tokens);
      WordsAfter(ls[0], ls[1..], word, tokens);
      assert ls == [ls[0]] + ls[1..];
    }
  }

  lemma RunLast(last: string, word: string, tokens: seq<string>)
    requires LastNote(last)
    ensures Finish(Run(Scan(Plain, word, tokens), last)) == Ok(tokens + WordsOf([], word))
  {
    assert Flush(tokens, word) == tokens + WordsOf([], word);
    if last != "" {
      var entered := Scan(Comment, "", Flush(tokens, word));
      assert Step(Scan(Plain, word, tokens), '#') == entered;
      RunComment(entered, last[1..]);
    }
  }

  // ---------------------------------------------------------------- and finds them

  lemma {:induction false} FindInside(quote: char, text: string, word: string, tokens: seq<string>)
    returns (inside: seq<Inner>, rest: string)
    requires quote != '\\' && Finish(Run(Scan(Mode.Quoted(quote), word, tokens), text)).Ok?
    ensures InsideOf(quote, inside) && text == SpellInside(inside) + ([quote] + rest)
    decreases |text|
  {
    if text[0] == quote {
      inside, rest := [], text[1..];
      assert text == "" + ([quote] + rest);
    } else if text[0] == '\\' {
      assert Finish(Run(Scan(Mode.Escaped(quote), word, tokens), text[1..])).Ok?;
      assert text[1..] != "";
      assert text[1..][1..] == text[2..] && text[1..][0] == text[1];
      var more, left := FindInside(quote, text[2..], word + [text[1]], tokens);
      inside, rest := [Slashed(text[1])] + more, left;
      assert inside[1..] == more;
      assert text == ['\\', text[1]] + text[2..];
    } else {
      var more, left := FindInside(quote, text[1..], word + [text[0]], tokens);
      inside, rest := [Raw(text[0])] + more, left;
      assert inside[1..] == more;
      assert text == [text[0]] + text[1..];
    }
  }

  /** The lexeme at the front of a text that the tokeniser accepts, unless it ends in a comment there. */
  lemma FirstLexeme(text: string, word: string, tokens: seq<string>) returns (l: Lexeme, rest: string)
    requires text != "" && !LastNote(text) && Finish(Run(Scan(Plain, word, tokens), text)).Ok?
    ensures Lawful(l) && text == SpellLexeme(l) + rest && |rest| < |text|
  {
    var c := text[0];
    assert text == [c] + text[1..];
    if c == '\'' || c == '"' {
      var inside, left := FindInside(c, text[1..], word, tokens);
      l, rest := Quotation(c, inside), left;
      assert text == [c] + (SpellInside(inside) + ([c] + left));
    } else if c == '#' {
      var newline := FindNewline(text, 0);
      assert text[0..] == text;
      var k := newline.value;
      l, rest := Note(text[1..k]), text[k + 1..];
      assert forall x | x in text[1..k] :: x in text[0..k];
      assert text == "#" + (text[1..k] + "\n") + rest;
    } else if IsSpace(c) {
      l, rest := Blank(c), text[1..];
    } else if c == '{' || c == '}' || c == ';' {
      l, rest := Mark(c), text[1..];
    } else {
      l, rest := Bare(c), text[1..];
    }
  }

  lemma {:induction false} FindLexemes(text: string, word: string, tokens: seq<string>)
    returns (ls: seq<Lexeme>, last: string)
    requires Finish(Run(Scan(Plain, word, tokens), text)).Ok?
    ensures Spells(ls, last, text)
    decreases |text|
  {
    if LastNote(text) {
      ls, last := [], text;
      assert text == "" + last;
    } else {
      var l, rest := FirstLexeme(text, word, tokens);
      RunAppend(Scan(Plain, word, tokens), SpellLexeme(l), rest);
      RunLexeme(l, word, tokens);
      var after := After(l, word, tokens);
      var more, left := FindLexemes(rest, after.current, after.tokens);
      ls, last := [l] + more, left;
      assert ls[1..] == more;
      assert text == SpellLexeme(l) + (SpellLexemes(more) + last);
      assert SpellLexemes(ls) + last == SpellLexeme(l) + SpellLexemes(more) + last;
    }
  }

  // ---------------------------------------------------------------- main results

  /** The tokeniser accepts exactly the texts made of lawful lexemes, and returns their words and marks. */
  lemma TokensAreLexemes(text: string, tokens: seq<string>)
    ensures Tokens(text) == Ok(tokens) <==> Lexes(text, tokens)
  {
    if Tokens(text).Ok? {
      var ls, last := FindLexemes(text, "", []);
      RunLexemes(ls, last, "", []);
      assert [] + WordsOf(ls, "") == WordsOf(ls, "");
    }
    forall ls, last | Spells(ls, last, text) ensures Tokens(text) == Ok(WordsOf(ls, "")) {
      RunLexemes(ls, last, "", []);
      assert [] + WordsOf(ls, "") == WordsOf(ls, "");
    }
  }

  /** A text reads as directives exactly when its lexemes, however words are quoted and laid out, are the
      tokens of statements that mean them. */
  lemma TextIsGrammar(text: string, directives: seq<Directive>)
    ensures Directives(text) == Ok(directives) <==>
            exists tokens :: Lexes(text, tokens) && Denotes(tokens, directives)
  {
    if Directives(text) == Ok(directives) {
      var tokens := Tokens(text).value;
      TokensAreLexemes(text, tokens);
      ParserIsGrammar(tokens, directives);
    }
    forall tokens | Lexes(text, tokens) && Denotes(tokens, directives) ensures Directives(text) == Ok(directives) {
      TokensAreLexemes(text, tokens);
      ParserIsGrammar(tokens, directives);
    }
  }
}
