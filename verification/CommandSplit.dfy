/**
 The agent daemon's command splitter (agent/internal/daemon/harness.go): words separated by white space, with
 quotes of two kinds, and a backslash that escapes the next character outside of quotes.
 */
module CommandSplit {
  import opened Wrappers

  datatype Error = Unterminated(quote: char) | TrailingBackslash | Empty

  predicate IsSpace(c: char) {
    c == ' ' || c == '\t' || c == '\n' || c == '\r'
  }

  predicate IsQuote(c: char) {
    c == '\'' || c == '"'
  }

  // ---------- The state machine ----------

  datatype State = State(argv: seq<string>, current: string, quote: Option<char>, started: bool, escaped: bool)

  const START := State([], "", None, false, false)

  function Next(s: State, c: char): State {
    if s.escaped then s.(current := s.current + [c], escaped := false)
    else if s.quote.None? && c == '\\' then s.(escaped := true, started := true)
    else if s.quote.Some? then
      if c == s.quote.value then s.(quote := None) else s.(current := s.current + [c])
    else if IsQuote(c) then s.(quote := Some(c), started := true)
    else if IsSpace(c) then
      if s.started then s.(argv := s.argv + [s.current], current := "", started := false) else s
    else s.(current := s.current + [c], started := true)
  }

  function After(s: State, text: string): State {
    if text == "" then s else Next(After(s, text[..|text| - 1]), text[|text| - 1])
  }

  function Result(s: State): Result<seq<string>, Error> {
    if s.quote.Some? then Err(Unterminated(s.quote.value))
    else if s.escaped then Err(TrailingBackslash)
    else
      var argv := if s.started then s.argv + [s.current] else s.argv;
      if argv == [] then Err(Empty) else Ok(argv)
  }

  function Split(command: string): Result<seq<string>, Error> {
    Result(After(START, command))
  }

  method SplitCommand(command: string) returns (r: Result<seq<string>, Error>)
    ensures r == Split(command)
  {
    var argv: seq<string>, current := [], "";
    var quote: Option<char>, started, escaped := None, false, false;
    for i := 0 to |command|
      invariant State(argv, current, quote, started, escaped) == After(START, command[..i])
    {
      var c := command[i];
      assert command[..i + 1][..i] == command[..i];
      if escaped {
        current := current + [c];
        escaped := false;
      } else if quote.None? && c == '\\' {
        escaped := true;
        started := true;
      } else if quote.Some? {
        if c == quote.value {
          quote := None;
        } else {
          current := current + [c];
        }
      } else if c == '\'' || c == '"' {
        quote := Some(c);
        started := true;
      } else if c == ' ' || c == '\t' || c == '\n' || c == '\r' {
        if started {
          argv := argv + [current];
          current := "";
          started := false;
        }
      } else {
        current := current + [c];
        started := true;
      }
    }
    assert command[..|command|] == command;
    if quote.Some? {
      return Err(Unterminated(quote.value));
    }
    if escaped {
      return Err(TrailingBackslash);
    }
    if started {
      argv := argv + [current];
    }
    if |argv| == 0 {
      return Err(Empty);
    }
    return Ok(argv);
  }

  // ---------- The language of commands ----------

  datatype Token = Space(c: char) | Plain(c: char) | Escaped(c: char) | Quoted(quote: char, body: string)

  predicate ValidToken(t: Token) {
    match t
    case Space(c) => c in " \t\n\r"
    case Plain(c) => c !in " \t\n\r\'\"\\"
    case Escaped(_) => true
    case Quoted(quote, body) => quote in "\'\"" && quote !in body
  }

  predicate Valid(ts: seq<Token>) {
    forall k :: 0 <= k < |ts| ==> ValidToken(ts[k])
  }

  function Render(t: Token): string {
    match t
    case Space(c) => [c]
    case Plain(c) => [c]
    case Escaped(c) => ['\\', c]
    case Quoted(quote, body) => [quote] + body + [quote]
  }

  function Text(ts: seq<Token>): string {
    if ts == [] then "" else Text(ts[..|ts| - 1]) + Render(ts[|ts| - 1])
  }

  function Value(t: Token): string {
    match t
    case Space(_) => ""
    case Plain(c) => [c]
    case Escaped(c) => [c]
    case Quoted(_, body) => body
  }

  /** What a word of these tokens stands for. */
  function Word(ts: seq<Token>): string {
    if ts == [] then "" else Word(ts[..|ts| - 1]) + Value(ts[|ts| - 1])
  }

  predicate EndsWord(ts: seq<Token>) {
    ts == [] || ts[|ts| - 1].Space?
  }

  /** Where the longest stretch without a space at the end begins. */
  function WordStart(ts: seq<Token>): (n: nat)
    ensures n <= |ts|
    ensures n == |ts| <==> EndsWord(ts)
  {
    if EndsWord(ts) then |ts| else WordStart(ts[..|ts| - 1])
  }

  /** The words: the longest stretches without a space. */
  function Words(ts: seq<Token>): seq<string> {
    if ts == [] then []
    else if EndsWord(ts) then Words(ts[..|ts| - 1])
    else Words(ts[..WordStart(ts)]) + [Word(ts[WordStart(ts)..])]
  }

  /** The tokens spell the command. */
  predicate Spells(ts: seq<Token>, command: string) {
    Valid(ts) && Text(ts) == command
  }

  /** The tokens spell all of the command but a backslash at its end. */
  predicate SpellsToBackslash(ts: seq<Token>, command: string) {
    Valid(ts) && Text(ts) + "\\" == command
  }

  /** The tokens spell all of the command but a quote that is opened and not closed. */
  predicate SpellsToQuote(ts: seq<Token>, quote: char, body: string, command: string) {
    Valid(ts) && quote in "\'\"" && quote !in body && Text(ts) + [quote] + body == command
  }

  // ---------- The state machine reads the language ----------

  lemma {:induction false} AfterBoth(s: State, a: string, b: string)
    ensures After(s, a + b) == After(After(s, a), b)
  {
    if b == "" {
      assert a + b == a;
    } else {
      AfterBoth(s, a, b[..|b| - 1]);
      assert (a + b)[..|a + b| - 1] == a + b[..|b| - 1];
    }
  }

  lemma AfterOne(s: State, c: char)
    ensures After(s, [c]) == Next(s, c)
  {
    assert [c][..0] == "";
  }

  lemma {:induction false} AfterBody(s: State, body: string)
    requires s.quote.Some? && !s.escaped && s.quote.value !in body
    ensures After(s, body) == s.(current := s.current + body)
  {
    if body != "" {
      AfterBody(s, body[..|body| - 1]);
      assert s.current + body == s.current + body[..|body| - 1] + [body[|body| - 1]];
    }
  }

  function Read(s: State, t: Token): State {
    if t.Space? then
      if s.started then s.(argv := s.argv + [s.current], current := "", started := false) else s
    else s.(current := s.current + Value(t), started := true)
  }

  lemma AfterToken(s: State, t: Token)
    requires s.quote.None? && !s.escaped && ValidToken(t)
    ensures After(s, Render(t)) == Read(s, t)
  {
    match t
    case Space(c) =>
      AfterOne(s, c);
    case Plain(c) =>
      AfterOne(s, c);
    case Escaped(c) =>
      AfterBoth(s, "\\", [c]);
      AfterOne(s, '\\');
      AfterOne(Next(s, '\\'), c);
      assert "\\" + [c] == Render(t);
    case Quoted(quote, body) =>
      var inside := Next(s, quote);
      AfterOne(s, quote);
      AfterBoth(s, [quote], body);
      AfterBody(inside, body);
      AfterBoth(s, [quote] + body, [quote]);
      AfterOne(After(inside, body), quote);
  }

  /** The state after tokens: the words so far, and the word at the end, if there is one. */
  function StateOf(ts: seq<Token>): State {
    if EndsWord(ts) then State(Words(ts), "", None, false, false)
    else State(Words(ts[..WordStart(ts)]), Word(ts[WordStart(ts)..]), None, true, false)
  }

  lemma StateMore(ts: seq<Token>, t: Token)
    ensures StateOf(ts + [t]) == Read(StateOf(ts), t)
  {
    var more, n := ts + [t], WordStart(ts);
    if t.Space? {
      WordsSpace(ts, t.c);
    } else {
      NoTokens();
      WordStartMore(ts, t);
      WordMore(ts[n..], t);
      assert more[..n] == ts[..n] && more[n..] == ts[n..] + [t];
    }
  }

  lemma WordStartMore(ts: seq<Token>, t: Token)
    requires !t.Space?
    ensures WordStart(ts + [t]) == WordStart(ts) && !EndsWord(ts + [t])
  {
    assert (ts + [t])[..|ts|] == ts;
  }

  lemma {:induction false} AfterTokens(ts: seq<Token>)
    requires Valid(ts)
    ensures After(START, Text(ts)) == StateOf(ts)
  {
    if ts != [] {
      var init, t := ts[..|ts| - 1], ts[|ts| - 1];
      assert ts == init + [t];
      AfterTokens(init);
      AfterBoth(START, Text(init), Render(t));
      AfterToken(StateOf(init), t);
      StateMore(init, t);
    }
  }

  lemma SplitOfTokens(ts: seq<Token>)
    requires Valid(ts)
    ensures Split(Text(ts)) == if Words(ts) == [] then Err(Empty) else Ok(Words(ts))
  {
    AfterTokens(ts);
  }

  lemma SplitOfBackslash(ts: seq<Token>)
    requires Valid(ts)
    ensures Split(Text(ts) + "\\") == Err(TrailingBackslash)
  {
    AfterTokens(ts);
    AfterBoth(START, Text(ts), "\\");
    AfterOne(StateOf(ts), '\\');
  }

  lemma SplitOfQuote(ts: seq<Token>, quote: char, body: string)
    requires Valid(ts) && quote in "\'\"" && quote !in body
    ensures Split(Text(ts) + [quote] + body) == Err(Unterminated(quote))
  {
    AfterTokens(ts);
    AfterBoth(START, Text(ts), [quote]);
    AfterOne(StateOf(ts), quote);
    AfterBoth(START, Text(ts) + [quote], body);
    AfterBody(Next(StateOf(ts), quote), body);
  }

  // ---------- Every command is in the language, or stops short ----------

  datatype Tail = Done | Backslash | Open(quote: char, body: string)

  function Rest(tail: Tail): string {
    match tail
    case Done => ""
    case Backslash => "\\"
    case Open(quote, body) => [quote] + body
  }

  predicate ValidTail(tail: Tail) {
    tail.Open? ==> tail.quote in "\'\"" && tail.quote !in tail.body
  }

  lemma TextMore(ts: seq<Token>, t: Token)
    ensures Text(ts + [t]) == Text(ts) + Render(t)
  {
    assert (ts + [t])[..|ts|] == ts;
  }

  /** Scans one more character. */
  lemma LexMore(ts: seq<Token>, tail: Tail, c: char) returns (ts': seq<Token>, tail': Tail)
    requires Valid(ts) && ValidTail(tail)
    ensures Valid(ts') && ValidTail(tail') && Text(ts') + Rest(tail') == Text(ts) + Rest(tail) + [c]
  {
    hide Text;
    ts', tail' := ts, Done;
    match tail
    case Done =>
      if c == '\\' {
        tail' := Backslash;
      } else if IsQuote(c) {
        tail' := Open(c, "");
      } else {
        var t := if IsSpace(c) then Space(c) else Plain(c);
        ts' := ts + [t];
        TextMore(ts, t);
      }
    case Backslash =>
      ts' := ts + [Escaped(c)];
      TextMore(ts, Escaped(c));
    case Open(quote, body) =>
      if c == quote {
        ts' := ts + [Quoted(quote, body)];
        TextMore(ts, Quoted(quote, body));
      } else {
        tail' := Open(quote, body + [c]);
      }
  }

  lemma NothingRead() returns (ts: seq<Token>, tail: Tail)
    ensures Valid(ts) && ValidTail(tail) && Text(ts) + Rest(tail) == ""
  {
    ts, tail := [], Done;
  }

  lemma {:induction false} Lex(command: string) returns (ts: seq<Token>, tail: Tail)
    ensures Valid(ts) && ValidTail(tail) && Text(ts) + Rest(tail) == command
  {
    hide Rest, ValidTail;
    if command == "" {
      ts, tail := NothingRead();
    } else {
      var init, c := command[..|command| - 1], command[|command| - 1];
      var ts0, tail0 := Lex(init);
      ts, tail := LexMore(ts0, tail0, c);
      assert command == init + [c];
    }
  }

  /** Splitting a command gives its words, for the one reading that it has. */
  lemma SplitGivesWords(command: string, args: seq<string>)
    ensures Split(command) == Ok(args) <==> args != [] && exists ts :: Spells(ts, command) && Words(ts) == args
  {
    hide Split, Words, Text, Valid;
    var ts, tail := Lex(command);
    WhatSplitDoes(ts, tail, command);
    forall other | Spells(other, command) && Words(other) == args && args != [] ensures Split(command) == Ok(args) {
      SplitOfTokens(other);
    }
    if Split(command) == Ok(args) {
      assert Spells(ts, command) && Words(ts) == args;
    }
  }

  lemma WhatSplitDoes(ts: seq<Token>, tail: Tail, command: string)
    requires Valid(ts) && ValidTail(tail) && Text(ts) + Rest(tail) == command
    ensures tail.Done? ==> Spells(ts, command)
    ensures tail.Done? ==> Split(command) == if Words(ts) == [] then Err(Empty) else Ok(Words(ts))
    ensures tail.Backslash? ==> SpellsToBackslash(ts, command) && Split(command) == Err(TrailingBackslash)
    ensures tail.Open? ==>
              SpellsToQuote(ts, tail.quote, tail.body, command) && Split(command) == Err(Unterminated(tail.quote))
  {
    hide Split, Words, Valid;
    match tail
    case Done =>
      assert Text(ts) + "" == Text(ts);
      SplitOfTokens(ts);
    case Backslash =>
      SplitOfBackslash(ts);
    case Open(quote, body) =>
      assert Text(ts) + ([quote] + body) == Text(ts) + [quote] + body;
      SplitOfQuote(ts, quote, body);
  }

  /** The three ways to fail, each exactly where the command says so. */
  lemma SplitFails(command: string, quote: char)
    ensures Split(command) == Err(Empty) <==> exists ts :: Spells(ts, command) && Words(ts) == []
    ensures Split(command) == Err(TrailingBackslash) <==> exists ts :: SpellsToBackslash(ts, command)
    ensures Split(command) == Err(Unterminated(quote)) <==> exists ts, body :: SpellsToQuote(ts, quote, body, command)
  {
    hide Split, Words, Text, Valid;
    var ts, tail := Lex(command);
    WhatSplitDoes(ts, tail, command);
    forall other | Spells(other, command) && Words(other) == [] ensures Split(command) == Err(Empty) {
      SplitOfTokens(other);
    }
    forall other | SpellsToBackslash(other, command) ensures Split(command) == Err(TrailingBackslash) {
      SplitOfBackslash(other);
    }
    forall other, body | SpellsToQuote(other, quote, body, command)
      ensures Split(command) == Err(Unterminated(quote))
    {
      SplitOfQuote(other, quote, body);
    }
  }

  // ---------- Splitting undoes quoting ----------

  function EscapedAll(arg: string): string {
    if arg == "" then "" else EscapedAll(arg[..|arg| - 1]) + ['\\', arg[|arg| - 1]]
  }

  /** An empty argument as two quotes, any other with a backslash before every character. */
  function QuoteArg(arg: string): string {
    if arg == "" then "\'\'" else EscapedAll(arg)
  }

  function Quote(args: seq<string>): string {
    if args == [] then ""
    else if |args| == 1 then QuoteArg(args[0])
    else Quote(args[..|args| - 1]) + " " + QuoteArg(args[|args| - 1])
  }

  function EscapedTokens(arg: string): (ts: seq<Token>)
    ensures |ts| == |arg|
  {
    if arg == "" then [] else EscapedTokens(arg[..|arg| - 1]) + [Escaped(arg[|arg| - 1])]
  }

  function WordTokens(arg: string): (ts: seq<Token>)
    ensures |ts| > 0
  {
    if arg == "" then [Quoted('\'', "")] else EscapedTokens(arg)
  }

  lemma {:induction false} EscapedAre(arg: string)
    ensures Text(EscapedTokens(arg)) == EscapedAll(arg) && Word(EscapedTokens(arg)) == arg
    ensures forall k :: 0 <= k < |arg| ==> EscapedTokens(arg)[k].Escaped?
  {
    hide Text, Word;
    if arg == "" {
      NoTokens();
    } else {
      var init, c := arg[..|arg| - 1], arg[|arg| - 1];
      EscapedAre(init);
      TextMore(EscapedTokens(init), Escaped(c));
      WordMore(EscapedTokens(init), Escaped(c));
      assert arg == init + [c];
    }
  }

  lemma WordMore(ts: seq<Token>, t: Token)
    ensures Word(ts + [t]) == Word(ts) + Value(t)
  {
    assert (ts + [t])[..|ts|] == ts;
  }

  lemma WordTokensAre(arg: string)
    ensures var ts := WordTokens(arg);
            Valid(ts) && Text(ts) == QuoteArg(arg) && Word(ts) == arg && forall k :: 0 <= k < |ts| ==> !ts[k].Space?
  {
    hide Text, Word, EscapedTokens;
    if arg == "" {
      NoTokens();
      TextMore([], Quoted('\'', ""));
      WordMore([], Quoted('\'', ""));
      assert [] + [Quoted('\'', "")] == [Quoted('\'', "")];
    } else {
      EscapedAre(arg);
    }
  }

  lemma {:induction false} WordStartAfter(ts: seq<Token>, word: seq<Token>)
    requires EndsWord(ts) && forall k :: 0 <= k < |word| ==> !word[k].Space?
    ensures WordStart(ts + word) == |ts|
  {
    if word == [] {
      assert ts + word == ts;
    } else {
      var init := word[..|word| - 1];
      WordStartAfter(ts, init);
      assert (ts + word)[..|ts + word| - 1] == ts + init;
    }
  }

  lemma WordsMore(ts: seq<Token>, word: seq<Token>)
    requires EndsWord(ts) && word != [] && forall k :: 0 <= k < |word| ==> !word[k].Space?
    ensures Words(ts + word) == Words(ts) + [Word(word)]
  {
    WordStartAfter(ts, word);
    assert (ts + word)[..|ts|] == ts && (ts + word)[|ts|..] == word;
  }

  lemma {:induction false} TextBoth(a: seq<Token>, b: seq<Token>)
    ensures Text(a + b) == Text(a) + Text(b)
  {
    hide Text;
    if b == [] {
      NoTokens();
      assert a + b == a;
    } else {
      var init, t := b[..|b| - 1], b[|b| - 1];
      TextBoth(a, init);
      TextMore(a + init, t);
      TextMore(init, t);
      assert b == init + [t] && a + b == a + init + [t];
    }
  }

  lemma WordsSpace(ts: seq<Token>, c: char)
    ensures Words(ts + [Space(c)]) == Words(ts) && EndsWord(ts + [Space(c)])
  {
    assert (ts + [Space(c)])[..|ts|] == ts;
  }

  /** A list of arguments has tokens that spell its quotation, and whose words it is. */
  lemma {:induction false} QuoteTokens(args: seq<string>) returns (ts: seq<Token>)
    ensures Spells(ts, Quote(args)) && Words(ts) == args
  {
    hide Words, Text, WordTokens, QuoteArg, Word;
    ts := [];
    if args == [] {
      NoTokens();
    } else {
      var init, last := args[..|args| - 1], args[|args| - 1];
      var word := WordTokens(last);
      WordTokensAre(last);
      assert args == init + [last];
      if init == [] {
        NoTokens();
        WordsMore([], word);
        assert [] + word == word;
        ts := word;
      } else {
        var before := QuoteTokens(init);
        var gap := before + [Space(' ')];
        WordsSpace(before, ' ');
        TextMore(before, Space(' '));
        WordsMore(gap, word);
        TextBoth(gap, word);
        ts := gap + word;
      }
    }
  }

  lemma NoTokens()
    ensures Words([]) == [] && Text([]) == "" && Word([]) == ""
  {
  }

  /** Splitting the quotation of a list of arguments, of any characters, gives the list back. */
  lemma SplitUndoesQuote(args: seq<string>)
    requires args != []
    ensures Split(Quote(args)) == Ok(args)
  {
    hide Words, Text, Split, Quote;
    var ts := QuoteTokens(args);
    SplitOfTokens(ts);
  }

  // ---------- Splitting two commands side by side ----------

  lemma {:induction false} WordStartIs(ts: seq<Token>)
    ensures EndsWord(ts[..WordStart(ts)]) && forall k :: WordStart(ts) <= k < |ts| ==> !ts[k].Space?
  {
    if !EndsWord(ts) {
      var init := ts[..|ts| - 1];
      WordStartIs(init);
      assert init[..WordStart(ts)] == ts[..WordStart(ts)];
    }
  }

  lemma Associates<T>(a: seq<T>, b: seq<T>, c: seq<T>)
    ensures a + b + c == a + (b + c)
  {
  }

  lemma EndsWordBoth(a: seq<Token>, b: seq<Token>)
    requires EndsWord(a) && EndsWord(b)
    ensures EndsWord(a + b)
  {
  }

  lemma WordsBothSpace(a: seq<Token>, init: seq<Token>, c: char)
    requires Words(a + init) == Words(a) + Words(init)
    ensures Words(a + (init + [Space(c)])) == Words(a) + Words(init + [Space(c)])
  {
    hide Words;
    WordsSpace(a + init, c);
    WordsSpace(init, c);
    Associates(a, init, [Space(c)]);
  }

  lemma WordsBothWord(a: seq<Token>, init: seq<Token>, word: seq<Token>)
    requires Words(a + init) == Words(a) + Words(init) && EndsWord(a) && EndsWord(init)
    requires word != [] && forall k :: 0 <= k < |word| ==> !word[k].Space?
    ensures Words(a + (init + word)) == Words(a) + Words(init + word)
  {
    hide *;
    EndsWordBoth(a, init);
    WordsMore(a + init, word);
    WordsMore(init, word);
    Associates(a, init, word);
    Associates(Words(a), Words(init), [Word(word)]);
  }

  lemma {:induction false} WordsBoth(a: seq<Token>, b: seq<Token>)
    requires EndsWord(a)
    ensures Words(a + b) == Words(a) + Words(b)
    decreases |b|
  {
    hide Words, Word;
    if b == [] {
      NoTokens();
      assert a + b == a;
    } else if EndsWord(b) {
      var init := b[..|b| - 1];
      assert b == init + [Space(b[|b| - 1].c)];
      WordsBoth(a, init);
      WordsBothSpace(a, init, b[|b| - 1].c);
    } else {
      var init, word := b[..WordStart(b)], b[WordStart(b)..];
      assert b == init + word;
      WordStartIs(b);
      WordsBoth(a, init);
      WordsBothWord(a, init, word);
    }
  }

  /** Two commands with a space between them split into the words of the one, then those of the other. */
  lemma SplitOfBoth(a: string, b: string, x: seq<string>, y: seq<string>)
    requires Split(a) == Ok(x) && Split(b) == Ok(y)
    ensures Split(a + " " + b) == Ok(x + y)
  {
    hide Words, Text, Split;
    SplitGivesWords(a, x);
    SplitGivesWords(b, y);
    var ta :| Spells(ta, a) && Words(ta) == x;
    var tb :| Spells(tb, b) && Words(tb) == y;
    var gap := ta + [Space(' ')];
    WordsSpace(ta, ' ');
    TextMore(ta, Space(' '));
    WordsBoth(gap, tb);
    TextBoth(gap, tb);
    SplitOfTokens(gap + tb);
  }
}
