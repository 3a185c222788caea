/** The nginx tokeniser of collectors/public_interfaces.py.

    `Tokenize` is the program's loop, which jumps over a comment with `find`. `Run` is the
    reference: an automaton that reads one character at a time. */
module NginxTokens {
  import opened Wrappers
  import opened Text

  datatype SyntaxError =
    | UnterminatedString
    | UnexpectedClosingBrace
    | MissingName
    | MissingTerminator(name: string)
    | UnterminatedBlock

  predicate IsPunctuation(token: string) {
    token == "{" || token == "}" || token == ";"
  }

  predicate IsQuote(c: char) {
    c == '\'' || c == '"'
  }

  // ---------------------------------------------------------------- the automaton

  datatype Mode = Plain | Quoted(delimiter: char) | Escaped(delimiter: char) | Comment {
    predicate InQuotes() { Quoted? || Escaped? }
  }

  datatype Scan = Scan(mode: Mode, current: string, tokens: seq<string>)

  const START := Scan(Plain, "", [])

  function Flush(tokens: seq<string>, current: string): seq<string> {
    if current == "" then tokens else tokens + [current]
  }

  function Step(s: Scan, c: char): Scan {
    match s.mode
    case Escaped(q) => Scan(Quoted(q), s.current + [c], s.tokens)
    case Quoted(q) =>
      if c == '\\' then s.(mode := Escaped(q))
      else if c == q then s.(mode := Plain)
      else s.(current := s.current + [c])
    case Comment => if c == '\n' then s.(mode := Plain) else s
    case Plain =>
      if IsQuote(c) then s.(mode := Quoted(c))
      else if c == '#' then Scan(Comment, "", Flush(s.tokens, s.current))
      else if IsSpace(c) then Scan(Plain, "", Flush(s.tokens, s.current))
      else if IsPunctuation([c]) then Scan(Plain, "", Flush(s.tokens, s.current) + [[c]])
      else s.(current := s.current + [c])
  }

  function Run(s: Scan, text: string): Scan
    decreases text
  {
    if text == "" then s else Run(Step(s, text[0]), text[1..])
  }

  function Finish(s: Scan): Result<seq<string>, SyntaxError> {
    if s.mode.InQuotes() then Err(UnterminatedString) else Ok(Flush(s.tokens, s.current))
  }

  function Tokens(text: string): Result<seq<string>, SyntaxError> {
    Finish(Run(START, text))
  }

  lemma {:induction false} RunAppend(s: Scan, a: string, b: string)
    ensures Run(s, a + b) == Run(Run(s, a), b)
    decreases a
  {
    if a == "" {
      assert a + b == b;
    } else {
      assert (a + b)[1..] == a[1..] + b;
      RunAppend(Step(s, a[0]), a[1..], b);
    }
  }

  /** A comment absorbs everything up to a newline. */
  lemma {:induction false} RunComment(s: Scan, text: string)
    requires s.mode.Comment? && '\n' !in text
    ensures Run(s, text) == s
  {
    if text != "" {
      RunComment(s, text[1..]);
    }
  }

  // ---------------------------------------------------------------- the loop

  /** `text.find("\n", start)`. */
  function FindNewline(text: string, start: nat): (r: Option<nat>)
    requires start <= |text|
    ensures r.None? ==> '\n' !in text[start..]
    ensures r.Some? ==> start <= r.value < |text| && text[r.value] == '\n' && '\n' !in text[start..r.value]
    decreases |text| - start
  {
    if start == |text| then None
    else if text[start] == '\n' then Some(start)
    else
      var r := FindNewline(text, start + 1);
      assert text[start..] == [text[start]] + text[start + 1..];
      assert r.Some? ==> text[start..r.value] == [text[start]] + text[start + 1..r.value];
      r
  }

  function ModeOf(quote: Option<char>, escaped: bool): Mode {
    match quote
    case None => Plain
    case Some(q) => if escaped then Escaped(q) else Quoted(q)
  }

  method Tokenize(text: string) returns (r: Result<seq<string>, SyntaxError>)
    ensures r == Tokens(text)
  {
    var tokens: seq<string> := [];
    var current := "";
    var quote: Option<char> := None;
    var escaped := false;
    var index := 0;
    while index < |text|
      invariant 0 <= index <= |text|
      invariant escaped ==> quote.Some?
      invariant Run(START, text) == Run(Scan(ModeOf(quote, escaped), current, tokens), text[index..])
    {
      var c := text[index];
      ghost var rest := text[index + 1..];
      assert text[index..] == [c] + rest;
      if quote.Some? {
        if escaped {
          current := current + [c];
          escaped := false;
        } else if c == '\\' {
          escaped := true;
        } else if c == quote.value {
          quote := None;
        } else {
          current := current + [c];
        }
        index := index + 1;
        continue;
      }
      if IsQuote(c) {
        quote := Some(c);
      } else if c == '#' {
        if current != "" {
          tokens := tokens + [current];
          current := "";
        }
        var newline := FindNewline(text, index);
        ghost var inside := Scan(Comment, "", tokens);
        assert Run(START, text) == Run(inside, rest);

        if newline.None? {
          RunComment(inside, rest);
          assert Run(START, text) == inside;
          break;
        }
        SkipComment(text, index, newline.value, inside);
        index := newline.value;
      } else if IsSpace(c) {
        if current != "" {
          tokens := tokens + [current];
          current := "";
        }
      } else if IsPunctuation([c]) {
        if current != "" {
          tokens := tokens + [current];
          current := "";
        }
        tokens := tokens + [[c]];
      } else {
        current := current + [c];
      }
      index := index + 1;
    }
    if quote.Some? {
      return Err(UnterminatedString);
    }
    if current != "" {
      tokens := tokens + [current];
    }
    return Ok(tokens);
  }

  /** Jumping to the newline is what the automaton does one character at a time. */
  lemma SkipComment(text: string, index: nat, newline: nat, inside: Scan)
    requires index < newline < |text| && text[newline] == '\n' && '\n' !in text[index..newline]
    requires inside.mode.Comment?
    ensures Run(inside, text[index + 1..]) == Run(inside.(mode := Plain), text[newline + 1..])
  {
    var body, tail := text[index + 1..newline], text[newline..];
    assert text[index + 1..] == body + tail;
    assert forall c :: c in body ==> c in text[index..newline];
    RunAppend(inside, body, tail);
    RunComment(inside, body);
    assert tail == ['\n'] + text[newline + 1..];
  }

  // ---------------------------------------------------------------- consequences

  /** Outside quotes a newline may be replaced by a comment that ends in one. */
  lemma NewlineAsComment(before: string, comment: string, after: string)
    requires !Run(START, before).mode.InQuotes()
    requires '\n' !in comment
    ensures Tokens(before + "#" + comment + "\n" + after) == Tokens(before + "\n" + after)
  {
    var s := Run(START, before);
    var entered := Step(s, '#');
    assert before + "#" + comment + "\n" + after == before + ("#" + comment + "\n" + after);
    assert before + "\n" + after == before + ("\n" + after);
    RunAppend(START, before, "#" + comment + "\n" + after);
    RunAppend(START, before, "\n" + after);
    assert ("#" + comment + "\n" + after)[1..] == comment + ("\n" + after);
    RunAppend(entered, comment, "\n" + after);
    RunComment(entered, comment);
    assert ("\n" + after)[1..] == after;
  }

  /** Inside quotes the same replacement changes the tokens. */
  lemma QuotedNewlineIsText(before: string)
    requires Run(START, before).mode.InQuotes()
    ensures var q := Run(START, before).mode.delimiter;
            && Tokens(before + "\n" + [q]).Ok?
            && Tokens(before + "#\n" + [q]) != Tokens(before + "\n" + [q])
  {
    QuotedText(before, "");
    QuotedText(before, "#");
    var s := Run(START, before);
    assert "" + "\n" == "\n" && "#" + "\n" == "#\n";
    var plain, hashed := s.current + "" + "\n", s.current + "#" + "\n";
    assert |plain| != |hashed|;
    assert (s.tokens + [plain])[|s.tokens|] == plain;
    assert (s.tokens + [hashed])[|s.tokens|] == hashed;
  }

  lemma QuotedText(before: string, extra: string)
    requires Run(START, before).mode.InQuotes()
    requires extra == "" || extra == "#"
    ensures var s := Run(START, before);
            IsQuote(s.mode.delimiter) &&
            Tokens(before + (extra + "\n") + [s.mode.delimiter]) == Ok(s.tokens + [s.current + extra + "\n"])
  {
    QuoteIsQuote(START, before);
    var s := Run(START, before);
    var q := s.mode.delimiter;
    var tail := extra + "\n" + [q];
    assert before + (extra + "\n") + [q] == before + tail;
    RunAppend(START, before, tail);
    var plain := Scan(Quoted(q), s.current + extra + "\n", s.tokens);
    if extra == "" {
      assert tail == ['\n', q] && tail[1..] == [q] && [q][1..] == "";
      assert Step(s, '\n') == plain by { assert s.current + "" == s.current; }
      assert Run(plain, [q]) == Run(Step(plain, q), "");
    } else {
      assert tail == ['#', '\n', q] && tail[1..] == ['\n', q] && ['\n', q][1..] == [q] && [q][1..] == "";
      assert Step(Step(s, '#'), '\n') == plain;
      assert Run(plain, [q]) == Run(Step(plain, q), "");
    }
  }

  lemma {:induction false} QuoteIsQuote(s: Scan, text: string)
    requires s.mode.InQuotes() ==> IsQuote(s.mode.delimiter)
    ensures var t := Run(s, text); t.mode.InQuotes() ==> IsQuote(t.mode.delimiter)
    decreases text
  {
    if text != "" {
      QuoteIsQuote(Step(s, text[0]), text[1..]);
    }
  }

  /** No token is empty: an empty quoted string leaves no trace. */
  lemma {:induction false} TokensNonEmpty(s: Scan, text: string)
    requires "" !in s.tokens
    ensures "" !in Flush(Run(s, text).tokens, Run(s, text).current)
    decreases text
  {
    if text != "" {
      TokensNonEmpty(Step(s, text[0]), text[1..]);
    }
  }
}
