/** src/common/Cli.cpp: the words of a command line, and the escaping that puts words on a line. Strings
    are C strings, up to their terminator. */
module CliWords {

  predicate IsBlank(token: char) {
    token == ' ' || token == '\t'
  }

  predicate NeedsEscape(token: char) {
    IsBlank(token) || token == '\\'
  }

  // ---- Escape and Unescape ------------------------------------------------------------------------

  function Escaped(text: string): string {
    if text == "" then ""
    else if NeedsEscape(text[0]) then "\\" + [text[0]] + Escaped(text[1..])
    else [text[0]] + Escaped(text[1..])
  }

  /** isQuote: the token before was a backslash that escapes. */
  function Unescaped(text: string, isQuote: bool): string {
    if text == "" then ""
    else if !isQuote && text[0] == '\\' then Unescaped(text[1..], true)
    else [text[0]] + Unescaped(text[1..], false)
  }

  lemma {:induction false} UnescapeEscape(text: string)
    ensures Unescaped(Escaped(text), false) == text
  {
    if text != "" {
      UnescapeEscape(text[1..]);
      var rest := Escaped(text[1..]);
      if NeedsEscape(text[0]) {
        var e := "\\" + [text[0]] + rest;
        assert e[1..] == [text[0]] + rest && e[1..][1..] == rest;
        assert Unescaped(e[1..], true) == [text[0]] + Unescaped(rest, false);
      } else {
        assert ([text[0]] + rest)[1..] == rest;
      }
      assert text == [text[0]] + text[1..];
    }
  }

  method Escape(text: string) returns (quotedText: string)
    ensures quotedText == Escaped(text) && Unescaped(quotedText, false) == text
  {
    quotedText := "";
    for i := 0 to |text|
      invariant Escaped(text) == quotedText + Escaped(text[i..])
    {
      assert text[i..][1..] == text[i + 1..];
      if NeedsEscape(text[i]) { quotedText := quotedText + "\\"; }
      quotedText := quotedText + [text[i]];
    }
    UnescapeEscape(text);
  }

  method Unescape(text: string) returns (dequotedText: string)
    ensures dequotedText == Unescaped(text, false)
  {
    dequotedText := "";
    var isQuote := false;
    for i := 0 to |text|
      invariant Unescaped(text, false) == dequotedText + Unescaped(text[i..], isQuote)
    {
      assert text[i..][1..] == text[i + 1..];
      if !isQuote && text[i] == '\\' {
        isQuote := true;
      } else {
        isQuote := false;
        dequotedText := dequotedText + [text[i]];
      }
    }
  }

  // ---- ParseLine ------------------------------------------------------------------------------------

  datatype Mode = Blank | Word | Escape

  datatype Parser = Parser(mode: Mode, isQuote: bool, words: seq<string>, word: string)

  function Feed(p: Parser, token: char): Parser {
    match p.mode
    case Blank =>
      if IsBlank(token) then p
      else if token == '\\' then Parser(Mode.Escape, false, p.words, "")
      else Parser(Word, token == '"', p.words, if token == '"' then "" else [token])
    case Word =>
      if (IsBlank(token) && !p.isQuote) || (token == '"' && p.isQuote) then
        p.(mode := Blank, words := p.words + [p.word])
      else if token == '\\' then p.(mode := Mode.Escape)
      else p.(word := p.word + [token])
    case Escape => p.(mode := Word, word := p.word + [token])
  }

  function Run(p: Parser, line: string): Parser
    decreases |line|
  {
    if line == "" then p else Run(Feed(p, line[0]), line[1..])
  }

  const START := Parser(Blank, false, [], "")

  /** The words, the last one even if it does not end. */
  function Finish(p: Parser): seq<string> {
    if p.mode == Blank then p.words else p.words + [p.word]
  }

  method ParseLine(line: string) returns (words: seq<string>, quote: bool)
    ensures words == Finish(Run(START, line))
    ensures quote == (Run(START, line).mode != Blank && Run(START, line).isQuote)
  {
    var currentMode, isQuote, currentWord := Blank, false, "";
    words := [];
    for i := 0 to |line|
      invariant Run(START, line) == Run(Parser(currentMode, isQuote, words, currentWord), line[i..])
    {
      var token := line[i];
      assert line[i..][1..] == line[i + 1..] && line[i..][0] == token && "" + [token] == [token];
      match currentMode {
        case Blank =>
          if !IsBlank(token) {
            currentWord := "";
            if token == '\\' {
              currentMode, isQuote := Mode.Escape, false;
            } else {
              currentMode, isQuote := Word, token == '"';
              if !isQuote { currentWord := currentWord + [token]; }
            }
          }
        case Word =>
          if (IsBlank(token) && !isQuote) || (token == '"' && isQuote) {
            currentMode, words := Blank, words + [currentWord];
          } else if token == '\\' {
            currentMode := Mode.Escape;
          } else {
            currentWord := currentWord + [token];
          }
        case Escape =>
          currentMode, currentWord := Word, currentWord + [token];
      }
    }
    quote := false;
    if currentMode != Blank {
      words := words + [currentWord];
      quote := isQuote;
    }
  }

  lemma {:induction false} RunAppend(p: Parser, a: string, b: string)
    ensures Run(p, a + b) == Run(Run(p, a), b)
    decreases |a|
  {
    if a == "" {
      assert a + b == b;
    } else {
      assert (a + b)[1..] == a[1..] + b;
      RunAppend(Feed(p, a[0]), a[1..], b);
    }
  }

  lemma RunOne(p: Parser, token: char, rest: string)
    ensures Run(p, [token] + rest) == Run(Feed(p, token), rest)
  {
    assert ([token] + rest)[1..] == rest;
  }

  // ---- words on a line and back -----------------------------------------------------------------------

  function Joined(words: seq<string>): string {
    if words == [] then ""
    else if |words| == 1 then Escaped(words[0])
    else Escaped(words[0]) + " " + Joined(words[1..])
  }

  /** Neither empty nor with a quote in front. */
  predicate Plain(word: string) {
    word != "" && word[0] != '"'
  }

  predicate AllPlain(words: seq<string>) {
    forall i :: 0 <= i < |words| ==> Plain(words[i])
  }

  /** Inside a word that does not stand in quotes an escaped text adds itself. */
  lemma {:induction false} WordGrows(p: Parser, text: string)
    requires p.mode == Word && !p.isQuote
    ensures Run(p, Escaped(text)) == p.(word := p.word + text)
    decreases |text|
  {
    hide Feed, Run, Escaped;
    if text == "" {
      NothingEscaped(p);
      assert p.word + text == p.word;
    } else {
      var c, rest := text[0], Escaped(text[1..]);
      var q := p.(word := p.word + [c]);
      EscapedCons(text);
      WordTokens(p, c);
      if NeedsEscape(c) {
        RunOne(p, '\\', [c] + rest);
        RunOne(p.(mode := Mode.Escape), c, rest);
      } else {
        RunOne(p, c, rest);
      }
      WordGrows(q, text[1..]);
      Glue(p.word, text);
    }
  }

  lemma Glue(word: string, text: string)
    requires text != ""
    ensures word + [text[0]] + text[1..] == word + text
  {
  }

  lemma NothingEscaped(p: Parser)
    ensures Run(p, Escaped("")) == p
  {
  }

  lemma EscapedCons(text: string)
    requires text != ""
    ensures Escaped(text)
         == if NeedsEscape(text[0]) then ['\\'] + ([text[0]] + Escaped(text[1..])) else [text[0]] + Escaped(text[1..])
  {
  }

  /** Tokens inside a word that does not stand in quotes. */
  lemma WordTokens(p: Parser, c: char)
    requires p.mode == Word && !p.isQuote
    ensures Feed(p, '\\') == p.(mode := Mode.Escape)
    ensures Feed(p.(mode := Mode.Escape), c) == p.(word := p.word + [c])
    ensures !NeedsEscape(c) ==> Feed(p, c) == p.(word := p.word + [c])
  {
  }

  lemma PlainWord(p: Parser, text: string)
    requires p.mode == Blank && Plain(text)
    ensures Run(p, Escaped(text)) == Parser(Word, false, p.words, text)
  {
    var c, rest := text[0], Escaped(text[1..]);
    if NeedsEscape(c) {
      assert Escaped(text) == ['\\'] + ([c] + rest);
      RunOne(p, '\\', [c] + rest);
      RunOne(Parser(Mode.Escape, false, p.words, ""), c, rest);
      assert "" + [c] == [c];
    } else {
      RunOne(p, c, rest);
    }
    WordGrows(Parser(Word, false, p.words, [c]), text[1..]);
    assert [c] + text[1..] == text;
  }

  /** The characters of words and one for the end of each. */
  function Weight(words: seq<string>): nat {
    if words == [] then 0 else Weight(words[..|words| - 1]) + |words[|words| - 1]| + 1
  }

  lemma {:induction false} WeightAppend(a: seq<string>, b: seq<string>)
    ensures Weight(a + b) == Weight(a) + Weight(b)
  {
    if b == [] {
      assert a + b == a;
    } else {
      assert (a + b)[..|a + b| - 1] == a + b[..|b| - 1];
      WeightAppend(a, b[..|b| - 1]);
    }
  }

  function Gained(p: Parser): nat {
    Weight(p.words) + if p.mode == Blank then 0 else |p.word|
  }

  /** No token adds more than one, and a backslash that escapes adds nothing. */
  lemma TokenGains(p: Parser, token: char)
    ensures Gained(Feed(p, token)) <= Gained(p) + 1
    ensures token == '\\' && p.mode != Mode.Escape ==>
      Gained(Feed(p, token)) == Gained(p) && Feed(p, token).mode == Mode.Escape
    ensures token == '"' && p.mode == Blank ==> Gained(Feed(p, token)) == Gained(p)
    ensures p.mode == Mode.Escape || token != '\\' ==> Feed(p, token).mode != Mode.Escape
  {
    assert (p.words + [p.word])[..|p.words|] == p.words;
  }

  lemma {:induction false} WordGains(p: Parser, text: string)
    requires p.mode != Mode.Escape
    ensures Run(p, Escaped(text)).mode != Mode.Escape
    ensures Gained(Run(p, Escaped(text))) <= Gained(p) + |text|
    decreases |text|
  {
    hide Feed, Gained;
    if text != "" {
      var c, rest := text[0], Escaped(text[1..]);
      if NeedsEscape(c) {
        assert Escaped(text) == ['\\'] + ([c] + rest);
        RunOne(p, '\\', [c] + rest);
        TokenGains(p, '\\');
        var q := Feed(p, '\\');
        RunOne(q, c, rest);
        TokenGains(q, c);
        WordGains(Feed(q, c), text[1..]);
      } else {
        RunOne(p, c, rest);
        TokenGains(p, c);
        WordGains(Feed(p, c), text[1..]);
      }
    }
  }

  lemma WeightOne(word: string)
    ensures Weight([word]) == |word| + 1
  {
    assert [word][..0] == [];
  }

  /** What follows the first word on a line. */
  function Following(words: seq<string>): string
    requires words != []
  {
    if |words| == 1 then "" else " " + Joined(words[1..])
  }

  lemma JoinedIs(words: seq<string>)
    requires words != []
    ensures Joined(words) == Escaped(words[0]) + Following(words)
    ensures words == [words[0]] + words[1..]
  {
    hide Escaped;
    assert Escaped(words[0]) + "" == Escaped(words[0]);
    var tail := if |words| == 1 then "" else Joined(words[1..]);
    assert Escaped(words[0]) + " " + tail == Escaped(words[0]) + (" " + tail);
  }

  lemma {:induction false} FollowingGains(p: Parser, words: seq<string>)
    requires words != [] && p.mode != Mode.Escape
    ensures var q := Run(p, Following(words));
      q.mode != Mode.Escape && Gained(q) <= Gained(p) + Weight(words[1..])
    decreases |words|
  {
    hide Feed, Gained, Weight, Joined;
    if |words| > 1 {
      var tail := words[1..];
      RunOne(p, ' ', Joined(tail));
      TokenGains(p, ' ');
      JoinedIs(tail);
      var q := Feed(p, ' ');
      RunAppend(q, Escaped(tail[0]), Following(tail));
      WordGains(q, tail[0]);
      FollowingGains(Run(q, Escaped(tail[0])), tail);
      WeightAppend([tail[0]], tail[1..]);
      WeightOne(tail[0]);
    } else {
      assert words[1..] == [];
    }
  }

  /** The words found never weigh more than what was gained, plus the end of the last word. */
  lemma FinishWeighs(p: Parser)
    ensures Weight(Finish(p)) <= Gained(p) + 1 && (p.mode == Blank ==> Weight(Finish(p)) == Gained(p))
  {
    WeightAppend(p.words, [p.word]);
    WeightOne(p.word);
  }

  /** From a blank a word that is empty or starts with a quote costs the line at least one. */
  lemma NotPlainLoses(p: Parser, words: seq<string>)
    requires p.mode == Blank && words != [] && !Plain(words[0])
    ensures Weight(Finish(Run(p, Joined(words)))) < Weight(p.words) + Weight(words)
  {
    hide Feed, Weight, Joined, Finish;
    JoinedIs(words);
    WeightAppend([words[0]], words[1..]);
    WeightOne(words[0]);
    var q := Run(p, Escaped(words[0]));
    RunAppend(p, Escaped(words[0]), Following(words));
    FinishWeighs(Run(q, Following(words)));
    if words[0] == "" {
      if |words| > 1 {
        BlankStays(p, Joined(words[1..]));
        JoinedIs(words[1..]);
        RunAppend(p, Escaped(words[1]), Following(words[1..]));
        WordGains(p, words[1]);
        FollowingGains(Run(p, Escaped(words[1])), words[1..]);
        WeightAppend([words[1]], words[1..][1..]);
        WeightOne(words[1]);
      } else {
        FinishWeighs(p);
        assert words[1..] == [];
      }
    } else {
      RunOne(p, '"', Escaped(words[0][1..]));
      TokenGains(p, '"');
      WordGains(Feed(p, '"'), words[0][1..]);
      FollowingGains(q, words);
    }
  }

  lemma BlankStays(p: Parser, rest: string)
    requires p.mode == Blank
    ensures Run(p, " " + rest) == Run(p, rest)
  {
    RunOne(p, ' ', rest);
  }

  /** Words put on a line are read back exactly if each is plain. */
  lemma {:induction false} ReadBackExactly(p: Parser, words: seq<string>)
    requires p.mode == Blank
    ensures Finish(Run(p, Joined(words))) == p.words + words <==> AllPlain(words)
    decreases |words|
  {
    hide Feed, Joined, Weight, Plain, AllPlain, Finish;
    if words == [] {
      NothingJoined(p);
    } else if !Plain(words[0]) {
      NotPlainLoses(p, words);
      WeightAppend(p.words, words);
      AllPlainTail(words);
    } else if |words| == 1 {
      OnePlain(p, words);
    } else {
      PlainThenRest(p, words);
      var next := Parser(Blank, false, p.words + [words[0]], words[0]);
      ReadBackExactly(next, words[1..]);
      assert p.words + [words[0]] + words[1..] == p.words + words;
      AllPlainTail(words);
    }
  }

  lemma OnePlain(p: Parser, words: seq<string>)
    requires p.mode == Blank && |words| == 1 && Plain(words[0])
    ensures Finish(Run(p, Joined(words))) == p.words + words && AllPlain(words)
  {
    PlainWord(p, words[0]);
    assert words == [words[0]];
  }

  /** A plain word and the blank behind it. */
  lemma PlainThenRest(p: Parser, words: seq<string>)
    requires p.mode == Blank && |words| > 1 && Plain(words[0])
    ensures Run(p, Joined(words)) == Run(Parser(Blank, false, p.words + [words[0]], words[0]), Joined(words[1..]))
  {
    hide Feed, Joined, Plain;
    JoinedIs(words);
    PlainWord(p, words[0]);
    RunAppend(p, Escaped(words[0]), Following(words));
    var q := Parser(Word, false, p.words, words[0]);
    RunOne(q, ' ', Joined(words[1..]));
    WordEnds(q);
  }

  lemma NothingJoined(p: Parser)
    requires p.mode == Blank
    ensures Finish(Run(p, Joined([]))) == p.words == p.words + [] && AllPlain([])
  {
  }

  lemma WordEnds(p: Parser)
    requires p.mode == Word && !p.isQuote
    ensures Feed(p, ' ') == p.(mode := Blank, words := p.words + [p.word])
  {
  }

  lemma AllPlainTail(words: seq<string>)
    requires words != []
    ensures AllPlain(words) <==> Plain(words[0]) && AllPlain(words[1..])
  {
    if Plain(words[0]) && AllPlain(words[1..]) {
      forall i | 0 <= i < |words|
        ensures Plain(words[i])
      {
        if i > 0 { assert words[i] == words[1..][i - 1]; }
      }
    }
  }

  /** ParseLine gives back the words that were escaped and joined by blanks if and only if none is empty
      and none starts with a quote. */
  lemma LineRoundTrip(words: seq<string>)
    ensures Finish(Run(START, Joined(words))) == words <==> AllPlain(words)
  {
    ReadBackExactly(START, words);
    assert START.words + words == words;
  }

  lemma LostWordsExamples()
    ensures Finish(Run(START, Joined([""]))) != [""] && Finish(Run(START, Joined(["\""]))) != ["\""]
  {
    LineRoundTrip([""]);
    LineRoundTrip(["\""]);
  }
}
