/**
 * The command line an example is documented with, and the shell that reads it: the
 * POSIX Shell Command Language, sections 2.2.1 (backslash), 2.2.2 (single quotes),
 * 2.3 (token recognition) and 2.10.2 (assignment words). What the sections give a
 * special meaning the printer never writes unquoted - expansions, operators, double
 * quotes - the lexer refuses instead of interpreting. So it does patterns, whose reading
 * depends on the files there are, and a tilde where it can begin a prefix (2.6.1).
 */
module ShellCommand {
  import opened Prelude

  // --- The printer --------------------------------------------------------------------

  predicate IsAlphanumeric(c: char) { 'A' <= c <= 'Z' || 'a' <= c <= 'z' || IsDigit(c) }

  /** `[A-Za-z0-9._/:@%+=,-]` */
  predicate BareCharacter(c: char) {
    IsAlphanumeric(c) || c == '.' || c == '_' || c == '/' || c == ':' || c == '@' || c == '%' || c == '+' || c == '='
        || c == ',' || c == '-'
  }

  predicate Bare(s: string) {
    |s| > 0 && forall i :: 0 <= i < |s| ==> BareCharacter(s[i])
  }

  predicate Digits(s: string) {
    |s| > 0 && forall i :: 0 <= i < |s| ==> IsDigit(s[i])
  }

  predicate UnsignedNumeral(s: string) {
    Digits(s) || exists i :: 0 < i < |s| && s[i] == '.' && Digits(s[..i]) && Digits(s[i + 1..])
  }

  /** `-?\d+(\.\d+)?` */
  predicate Numeral(s: string) {
    UnsignedNumeral(s) || (|s| > 0 && s[0] == '-' && UnsignedNumeral(s[1..]))
  }

  /** The text between the quotes: each `'` closes them, is escaped, and reopens them. */
  function Escaped(value: string): string {
    if |value| == 0 then ""
    else (if value[0] == '\'' then "'\\''" else [value[0]]) + Escaped(value[1..])
  }

  function ShellQuote(value: string): string {
    if Numeral(value) || value == "true" || value == "false" then value else "'" + Escaped(value) + "'"
  }

  function ArgQuote(value: string): string {
    if Bare(value) then value else ShellQuote(value)
  }

  datatype EnvBinding = EnvBinding(envKey: string, value: string)

  /** Parts joined by single spaces. */
  function JoinSpaced(parts: seq<string>): string {
    if |parts| == 0 then "" else if |parts| == 1 then parts[0] else parts[0] + " " + JoinSpaced(parts[1..])
  }

  function EnvWords(bindings: seq<EnvBinding>): seq<string> {
    if |bindings| == 0 then []
    else [bindings[0].envKey + "=" + ShellQuote(bindings[0].value)] + EnvWords(bindings[1..])
  }

  function FormatEnvPrefix(bindings: seq<EnvBinding>): string {
    if |bindings| == 0 then "" else JoinSpaced(EnvWords(bindings)) + " "
  }

  function ArgTokens(tokens: seq<string>): seq<string> {
    if |tokens| == 0 then [] else [ArgQuote(tokens[0])] + ArgTokens(tokens[1..])
  }

  const TELO := "telo"

  function ArgsText(tokens: seq<string>): string {
    if |tokens| > 0 then " " + JoinSpaced(ArgTokens(tokens)) else ""
  }

  /** The command line of `renderCommand`. */
  function RenderCommand(env: seq<EnvBinding>, url: string, tokens: seq<string>): string {
    FormatEnvPrefix(env) + TELO + " " + url + ArgsText(tokens)
  }

  // --- The shell ------------------------------------------------------------------------

  /** A character of a word, and whether a quote preserves its literal value. */
  datatype Piece = Piece(c: char, quoted: bool)

  type Word = seq<Piece>

  predicate Blank(c: char) { c == ' ' || c == '\t' }

  /** A character with a meaning of its own when it is not quoted. */
  predicate Special(c: char) {
    || c == '|' || c == '&' || c == ';' || c == '<' || c == '>' || c == '(' || c == ')' || c == '$' || c == '`'
    || c == '"' || c == '\n' || c == '*' || c == '?' || c == '['
  }

  /** A character that stands for itself in a word that has begun. */
  predicate PlainCharacter(c: char) {
    !Blank(c) && !Special(c) && c != '\'' && c != '\\'
  }

  /** And so it does where it begins one: it starts no comment and no tilde-prefix. */
  predicate BeginsPlain(c: char) {
    c != '#' && c != '~'
  }

  /** A text the shell takes, unquoted, for one word that is the text. */
  predicate Plain(s: string) {
    |s| > 0 && BeginsPlain(s[0]) && forall i :: 0 <= i < |s| ==> PlainCharacter(s[i])
  }

  function Begun(current: Option<Word>): Word {
    if current.Some? then current.value else []
  }

  /** Prepends the word in progress, if one was begun. */
  function Delimit(current: Option<Word>, others: Option<seq<Word>>): Option<seq<Word>> {
    if others.None? then None else Some((if current.Some? then [current.value] else []) + others.value)
  }

  function SkipComment(s: string): (r: string)
    ensures |r| <= |s|
  {
    if |s| == 0 || s[0] == '\n' then s else SkipComment(s[1..])
  }

  /**
   * The words of a command line. `current` is the word in progress - an empty quoted
   * word has begun - and `inQuotes` says whether the text continues a quoted string.
   */
  function Lex(s: string, current: Option<Word>, inQuotes: bool): Option<seq<Word>>
    decreases |s|
  {
    if |s| == 0 then if inQuotes then None else Delimit(current, Some([]))
    else if inQuotes then
      if s[0] == '\'' then Lex(s[1..], current, false)
      else Lex(s[1..], Some(Begun(current) + [Piece(s[0], true)]), true)
    else if s[0] == '\'' then Lex(s[1..], Some(Begun(current)), true)
    else if s[0] == '\\' then
      if |s| == 1 then None
      else if s[1] == '\n' then Lex(s[2..], current, false)
      else Lex(s[2..], Some(Begun(current) + [Piece(s[1], true)]), false)
    else if Blank(s[0]) then Delimit(current, Lex(s[1..], None, false))
    else if s[0] == '#' && current.None? then Lex(SkipComment(s[1..]), None, false)
    else if Special(s[0]) || (s[0] == '~' && current.None?) then None
    else Lex(s[1..], Some(Begun(current) + [Piece(s[0], false)]), false)
  }

  /** Quote removal. */
  function Literal(word: Word): (r: string)
    ensures |r| == |word|
  {
    seq(|word|, i requires 0 <= i < |word| => word[i].c)
  }

  predicate NameCharacter(c: char) { IsAlphanumeric(c) || c == '_' }

  /** An environment variable name: section 3.235 of the Base Definitions. */
  predicate Name(s: string) {
    |s| > 0 && !IsDigit(s[0]) && forall i :: 0 <= i < |s| ==> NameCharacter(s[i])
  }

  predicate Unquoted(word: Word) {
    forall i :: 0 <= i < |word| ==> !word[i].quoted
  }

  /** Where the first unquoted `=` of a word stands, or its length. */
  function EqualsAt(word: Word): (n: nat)
    ensures n <= |word|
    ensures n < |word| ==> word[n] == Piece('=', false)
    ensures forall i :: 0 <= i < n ==> word[i] != Piece('=', false)
  {
    if |word| == 0 || word[0] == Piece('=', false) then 0 else 1 + EqualsAt(word[1..])
  }

  /** A word that begins with an unquoted name and an unquoted `=`. */
  predicate IsAssignment(word: Word) {
    var n := EqualsAt(word);
    n < |word| && Unquoted(word[..n]) && Name(Literal(word[..n]))
  }

  function AssignmentOf(word: Word): EnvBinding
    requires IsAssignment(word)
  {
    var n := EqualsAt(word);
    EnvBinding(Literal(word[..n]), Literal(word[n + 1..]))
  }

  datatype SimpleCommand = SimpleCommand(assignments: seq<EnvBinding>, words: seq<string>)

  function Literals(words: seq<Word>): seq<string> {
    if |words| == 0 then [] else [Literal(words[0])] + Literals(words[1..])
  }

  /** Assignments stand before the command; from the first other word on, all are arguments. */
  function ReadCommand(words: seq<Word>): SimpleCommand {
    if |words| > 0 && IsAssignment(words[0]) then
      var others := ReadCommand(words[1..]);
      others.(assignments := [AssignmentOf(words[0])] + others.assignments)
    else SimpleCommand([], Literals(words))
  }

  function Shell(line: string): Option<SimpleCommand> {
    var words := Lex(line, None, false);
    if words.None? then None else Some(ReadCommand(words.value))
  }

  // --- Reading one printed word -----------------------------------------------------------

  function Pieces(s: string, quoted: bool): (r: Word)
    ensures |r| == |s|
    ensures forall i :: 0 <= i < |s| ==> r[i] == Piece(s[i], quoted)
  {
    seq(|s|, i requires 0 <= i < |s| => Piece(s[i], quoted))
  }

  lemma LiteralPieces(s: string, quoted: bool)
    ensures Literal(Pieces(s, quoted)) == s
  {
  }

  lemma LexCharacter(c: char, rest: string, current: Option<Word>)
    requires PlainCharacter(c) && (current.None? ==> BeginsPlain(c))
    ensures Lex([c] + rest, current, false) == Lex(rest, Some(Begun(current) + [Piece(c, false)]), false)
  {
    assert ([c] + rest)[1..] == rest;
  }

  lemma PiecesFirst(word: Word, c: char, s: string)
    ensures word + Pieces([c] + s, false) == word + [Piece(c, false)] + Pieces(s, false)
  {
  }

  /** Plain characters join the word in progress as they stand. */
  lemma {:induction false} LexPlain(s: string, rest: string, current: Option<Word>)
    requires |s| > 0 && forall i :: 0 <= i < |s| ==> PlainCharacter(s[i])
    requires current.None? ==> BeginsPlain(s[0])
    ensures Lex(s + rest, current, false) == Lex(rest, Some(Begun(current) + Pieces(s, false)), false)
  {
    var c, later := s[0], s[1..];
    var next := Begun(current) + [Piece(c, false)];
    assert s == [c] + later && s + rest == [c] + (later + rest);
    LexCharacter(c, later + rest, current);
    PiecesFirst(Begun(current), c, later);
    if |later| > 0 {
      LexPlain(later, rest, Some(next));
    } else {
      assert later + rest == rest && next + Pieces(later, false) == next;
    }
  }

  lemma LexPlainWord(s: string, rest: string)
    requires Plain(s)
    ensures Lex(s + rest, None, false) == Lex(rest, Some(Pieces(s, false)), false)
  {
    LexPlain(s, rest, None);
    assert [] + Pieces(s, false) == Pieces(s, false);
  }

  lemma LexEscapedQuote(rest: string, word: Word)
    ensures Lex("'\\''" + rest, Some(word), true) == Lex(rest, Some(word + [Piece('\'', true)]), true)
  {
    var s := "'\\''" + rest;
    var t, u := s[1..], "'" + rest;
    assert t[0] == '\\' && t[1] == '\'' && t[2..] == u && u[1..] == rest;
    assert Lex(s, Some(word), true) == Lex(t, Some(word), false);
    assert Lex(t, Some(word), false) == Lex(u, Some(word + [Piece('\'', true)]), false);
  }

  /** What stands between the quotes is kept character by character. */
  lemma {:induction false} LexInQuotes(value: string, rest: string, word: Word)
    ensures Lex(Escaped(value) + ("'" + rest), Some(word), true) == Lex(rest, Some(word + Pieces(value, true)), false)
  {
    var end := "'" + rest;
    if |value| == 0 {
      assert Escaped(value) + end == end && end[1..] == rest;
      assert word + Pieces(value, true) == word;
    } else {
      var next := word + [Piece(value[0], true)];
      var tail := Escaped(value[1..]) + end;
      LexInQuotes(value[1..], rest, next);
      assert next + Pieces(value[1..], true) == word + Pieces(value, true);
      if value[0] == '\'' {
        Regroup3("'\\''", Escaped(value[1..]), end);
        LexEscapedQuote(tail, word);
      } else {
        Regroup3([value[0]], Escaped(value[1..]), end);
        assert ([value[0]] + tail)[1..] == tail;
      }
    }
  }

  lemma LexQuoted(value: string, rest: string, current: Option<Word>)
    ensures Lex("'" + Escaped(value) + "'" + rest, current, false) ==
        Lex(rest, Some(Begun(current) + Pieces(value, true)), false)
  {
    Regroup4("'", Escaped(value), "'", rest);
    var tail := Escaped(value) + ("'" + rest);
    assert ("'" + tail)[1..] == tail;
    LexInQuotes(value, rest, Begun(current));
  }

  lemma DecimalIsBare(s: string, i: nat)
    requires i < |s| && s[i] == '.' && Digits(s[..i]) && Digits(s[i + 1..])
    ensures Bare(s)
  {
    forall j | 0 <= j < |s| ensures BareCharacter(s[j]) {
      assert j < i ==> s[..i][j] == s[j];
      assert j > i ==> s[i + 1..][j - i - 1] == s[j];
    }
  }

  lemma UnsignedIsBare(s: string)
    requires UnsignedNumeral(s)
    ensures Bare(s)
  {
    if !Digits(s) {
      var i :| 0 < i < |s| && s[i] == '.' && Digits(s[..i]) && Digits(s[i + 1..]);
      DecimalIsBare(s, i);
    }
  }

  lemma NumeralIsBare(s: string)
    requires Numeral(s)
    ensures Bare(s)
  {
    if UnsignedNumeral(s) {
      UnsignedIsBare(s);
    } else {
      UnsignedIsBare(s[1..]);
      forall i | 0 <= i < |s| ensures BareCharacter(s[i]) {
        assert i > 0 ==> s[i] == s[1..][i - 1];
      }
    }
  }

  /** A value the quoting leaves bare is made of bare characters. */
  lemma UnquotedIsBare(value: string)
    requires Numeral(value) || value == "true" || value == "false"
    ensures Bare(value)
  {
    if Numeral(value) {
      NumeralIsBare(value);
    }
  }

  lemma LexArgument(token: string, rest: string) returns (quoted: bool)
    ensures Lex(ArgQuote(token) + rest, None, false) == Lex(rest, Some(Pieces(token, quoted)), false)
  {
    if Bare(token) {
      quoted := false;
      LexPlainWord(token, rest);
    } else {
      quoted := true;
      if Numeral(token) || token == "true" || token == "false" {
        UnquotedIsBare(token);
      }
      LexQuoted(token, rest, None);
      assert [] + Pieces(token, true) == Pieces(token, true);
    }
  }

  lemma LexAssignment(b: EnvBinding, rest: string) returns (word: Word)
    requires Name(b.envKey)
    ensures Lex(b.envKey + "=" + ShellQuote(b.value) + rest, None, false) == Lex(rest, Some(word), false)
    ensures IsAssignment(word) && AssignmentOf(word) == b
  {
    var prefix := b.envKey + "=";
    var value := ShellQuote(b.value);
    var start := Pieces(prefix, false);
    var bare := Numeral(b.value) || b.value == "true" || b.value == "false";
    word := start + Pieces(b.value, !bare);
    assert Bare(prefix);
    LexPlainWord(prefix, value + rest);
    Regroup3(prefix, value, rest);
    if bare {
      UnquotedIsBare(b.value);
      LexPlain(b.value, rest, Some(start));
    } else {
      LexQuoted(b.value, rest, Some(start));
    }
    AssignmentWord(b, word, !bare);
  }

  lemma AssignmentWord(b: EnvBinding, word: Word, quoted: bool)
    requires Name(b.envKey)
    requires word == Pieces(b.envKey + "=", false) + Pieces(b.value, quoted)
    ensures IsAssignment(word) && AssignmentOf(word) == b
  {
    var k := |b.envKey|;
    assert forall i :: 0 <= i < k ==> word[i] == Piece(b.envKey[i], false) && NameCharacter(b.envKey[i]);
    assert word[k] == Piece('=', false);
    var n := EqualsAt(word);
    assert n == k;
    assert Literal(word[..n]) == b.envKey;
    assert Literal(word[n + 1..]) == b.value;
  }

  // --- Reading the whole line ----------------------------------------------------------------

  /** The words the arguments are read as: each token, quoted or not. */
  ghost predicate ReadAs(words: seq<Word>, tokens: seq<string>) {
    && |words| == |tokens|
    && forall i :: 0 <= i < |words| ==> Literal(words[i]) == tokens[i]
  }

  lemma {:induction false} LexArguments(tokens: seq<string>) returns (words: seq<Word>)
    requires |tokens| > 0
    ensures Lex(JoinSpaced(ArgTokens(tokens)), None, false) == Some(words)
    ensures ReadAs(words, tokens)
  {
    var first := ArgQuote(tokens[0]);
    if |tokens| == 1 {
      var quoted := LexArgument(tokens[0], "");
      assert first + "" == first;
      assert ArgTokens(tokens) == [first];
      words := [Pieces(tokens[0], quoted)];
      assert words + [] == words;
      LiteralPieces(tokens[0], quoted);
    } else {
      var others := LexArguments(tokens[1..]);
      var tail := " " + JoinSpaced(ArgTokens(tokens[1..]));
      var quoted := LexArgument(tokens[0], tail);
      assert ArgTokens(tokens)[1..] == ArgTokens(tokens[1..]);
      Regroup3(first, " ", JoinSpaced(ArgTokens(tokens[1..])));
      assert tail[1..] == JoinSpaced(ArgTokens(tokens[1..]));
      words := [Pieces(tokens[0], quoted)] + others;
      LiteralPieces(tokens[0], quoted);
    }
  }

  lemma {:induction false} ReadAsLiterals(words: seq<Word>, tokens: seq<string>)
    requires ReadAs(words, tokens)
    ensures Literals(words) == tokens
  {
    if |words| > 0 {
      ReadAsLiterals(words[1..], tokens[1..]);
      assert tokens == [tokens[0]] + tokens[1..];
    }
  }

  lemma {:induction false} PrefixFirst(env: seq<EnvBinding>, tail: string)
    requires |env| > 0
    ensures FormatEnvPrefix(env) + tail == env[0].envKey + "=" + ShellQuote(env[0].value)
        + (" " + (FormatEnvPrefix(env[1..]) + tail))
  {
    var first := env[0].envKey + "=" + ShellQuote(env[0].value);
    assert EnvWords(env) == [first] + EnvWords(env[1..]);
    if |env| == 1 {
      assert JoinSpaced(EnvWords(env)) == first;
      assert "" + tail == tail;
      Regroup3(first, " ", tail);
    } else {
      assert EnvWords(env)[1..] == EnvWords(env[1..]);
      var others := JoinSpaced(EnvWords(env[1..]));
      Regroup4(first, " ", others, " " + tail);
      Regroup3(first + " " + others, " ", tail);
      Regroup3(others, " ", tail);
    }
  }

  /** The line starts with its first assignment, and goes on as the line without it. */
  lemma CommandFirst(env: seq<EnvBinding>, url: string, tokens: seq<string>)
    requires |env| > 0
    ensures RenderCommand(env, url, tokens)
         == env[0].envKey + "=" + ShellQuote(env[0].value) + (" " + RenderCommand(env[1..], url, tokens))
  {
    var args := ArgsText(tokens);
    var command := TELO + " " + url + args;
    RenderedLine(env, url, tokens, command);
    RenderedLine(env[1..], url, tokens, command);
    PrefixFirst(env, command);
  }

  lemma RenderedLine(env: seq<EnvBinding>, url: string, tokens: seq<string>, command: string)
    requires command == TELO + " " + url + ArgsText(tokens)
    ensures RenderCommand(env, url, tokens) == FormatEnvPrefix(env) + command
  {
    var args := ArgsText(tokens);
    var prefix := FormatEnvPrefix(env);
    Regroup4(prefix + TELO, " ", url, args);
    Regroup4(TELO, " ", url, args);
    Regroup3(prefix, TELO, " " + (url + args));
  }

  /** A line without assignments: the command, the address, and what follows. */
  lemma LexCommand(url: string, tokens: seq<string>)
    ensures Lex(RenderCommand([], url, tokens), None, false) ==
            Delimit(Some(Pieces(TELO, false)), Lex(url + ArgsText(tokens), None, false))
  {
    var line := url + ArgsText(tokens);
    RenderedBare(url, tokens);
    TeloIsPlain();
    LexPlainWord(TELO, " " + line);
    LexBlank(line, Pieces(TELO, false));
  }

  lemma TeloIsPlain()
    ensures Plain(TELO)
  {
    assert TELO == ['t', 'e', 'l', 'o'];
  }

  lemma RenderedBare(url: string, tokens: seq<string>)
    ensures RenderCommand([], url, tokens) == TELO + (" " + (url + ArgsText(tokens)))
  {
    assert FormatEnvPrefix([]) + TELO == TELO;
    Regroup4(TELO, " ", url, ArgsText(tokens));
  }

  lemma LexBlank(rest: string, word: Word)
    ensures Lex(" " + rest, Some(word), false) == Delimit(Some(word), Lex(rest, None, false))
  {
    assert (" " + rest)[1..] == rest;
  }

  lemma CommandWordIsNoAssignment()
    ensures !IsAssignment(Pieces(TELO, false))
  {
  }

  /** It is read back exactly when the rest is read as the address and the tokens. */
  lemma CommandReadExactly(url: string, tokens: seq<string>)
    ensures Shell(RenderCommand([], url, tokens)) == Some(SimpleCommand([], [TELO, url] + tokens))
       <==> WordsRead(url + ArgsText(tokens), [url] + tokens)
  {
    LexCommand(url, tokens);
    TeloShell(RenderCommand([], url, tokens), Lex(url + ArgsText(tokens), None, false), [url] + tokens);
    assert [TELO, url] + tokens == [TELO] + ([url] + tokens);
  }

  lemma TeloShell(line: string, words: Option<seq<Word>>, literals: seq<string>)
    requires Lex(line, None, false) == Delimit(Some(Pieces(TELO, false)), words)
    ensures Shell(line) == Some(SimpleCommand([], [TELO] + literals)) <==>
            words.Some? && Literals(words.value) == literals
  {
    if words.Some? {
      TeloRead(words.value, literals);
    }
  }

  lemma TeloRead(words: seq<Word>, literals: seq<string>)
    ensures ReadCommand([Pieces(TELO, false)] + words) == SimpleCommand([], Literals([Pieces(TELO, false)] + words))
    ensures Literals([Pieces(TELO, false)] + words) == [TELO] + literals <==> Literals(words) == literals
  {
    CommandWordIsNoAssignment();
    LiteralPieces(TELO, false);
    assert ([Pieces(TELO, false)] + words)[1..] == words;
    assert ([TELO] + Literals(words))[1..] == Literals(words) && ([TELO] + literals)[1..] == literals;
  }

  /** A text is read as words with these literals. */
  predicate WordsRead(s: string, literals: seq<string>) {
    var words := Lex(s, None, false);
    words.Some? && Literals(words.value) == literals
  }

  lemma {:induction false} ReadAddress(url: string, tokens: seq<string>)
    requires Plain(url)
    ensures WordsRead(url + ArgsText(tokens), [url] + tokens)
  {
    LexPlainWord(url, ArgsText(tokens));
    LiteralPieces(url, false);
    var others: seq<Word> := [];
    if |tokens| > 0 {
      others := LexArguments(tokens);
      assert ArgsText(tokens)[1..] == JoinSpaced(ArgTokens(tokens));
    }
    ReadAsLiterals(others, tokens);
    assert ([Pieces(url, false)] + others)[1..] == others;
  }

  // --- An address that is not plain is misread ---------------------------------------------------

  /** What words hold: their characters, and one for each word. */
  function Weight(words: seq<Word>): nat {
    if |words| == 0 then 0 else |words[0]| + 1 + Weight(words[1..])
  }

  function Size(texts: seq<string>): nat {
    if |texts| == 0 then 0 else |texts[0]| + 1 + Size(texts[1..])
  }

  lemma {:induction false} WeightIsSize(words: seq<Word>)
    ensures Weight(words) == Size(Literals(words))
  {
    if |words| > 0 {
      WeightIsSize(words[1..]);
      assert Literals(words)[1..] == Literals(words[1..]);
    }
  }

  function Begins(current: Option<Word>): nat {
    |Begun(current)| + 1
  }

  /** From this state, reading the text adds at most `n` to the word in progress. */
  predicate Adds(s: string, n: nat, current: Option<Word>, inQuotes: bool) {
    var words := Lex(s, current, inQuotes);
    words.Some? ==> Weight(words.value) <= Begins(current) + n
  }

  /** So it does from every state. */
  ghost predicate Bound(s: string, n: nat) {
    forall current, inQuotes :: Adds(s, n, current, inQuotes)
  }

  /** And so does the text without its first character, should a backslash take it. */
  ghost predicate BoundFirm(s: string, n: nat) {
    Bound(s, n) && (|s| > 0 ==> Bound(s[1..], n))
  }

  lemma DelimitWeight(current: Option<Word>, others: Option<seq<Word>>)
    ensures others.Some? && current.None? ==> Delimit(current, others) == others
    ensures others.Some? ==>
              Weight(Delimit(current, others).value) ==
              (if current.Some? then |current.value| + 1 else 0) + Weight(others.value)
  {
    if others.Some? {
      assert [] + others.value == others.value;
    }
    if current.Some? && others.Some? {
      assert ([current.value] + others.value)[1..] == others.value;
    }
  }

  /** A comment runs to the end of the line, which ends the command. */
  lemma {:induction false} CommentEnds(s: string)
    ensures var words := Lex(SkipComment(s), None, false); words.None? || words == Some([])
  {
    if |s| == 0 {
      DelimitWeight(None, Some([]));
    } else if s[0] != '\n' {
      CommentEnds(s[1..]);
    }
  }

  /** A further character adds one at most. */
  lemma AddsOne(c: char, s: string, n: nat, current: Option<Word>, inQuotes: bool)
    requires BoundFirm(s, n)
    ensures Adds([c] + s, n + 1, current, inQuotes)
  {
    var text := [c] + s;
    assert text[1..] == s && text[0] == c;
    if inQuotes || c == '\'' {
      assert Adds(s, n, current, false) && Adds(s, n, Some(Begun(current)), true);
      assert Adds(s, n, Some(Begun(current) + [Piece(c, true)]), true);
    } else if c == '\\' {
      if |s| > 0 {
        assert text[2..] == s[1..];
        assert Adds(s[1..], n, current, false) && Adds(s[1..], n, Some(Begun(current) + [Piece(s[0], true)]), false);
      }
    } else if Blank(c) {
      assert Adds(s, n, None, false);
      DelimitWeight(current, Lex(s, None, false));
    } else if c == '#' && current.None? {
      CommentEnds(s);
    } else {
      assert Adds(s, n, Some(Begun(current) + [Piece(c, false)]), false);
    }
  }

  lemma BoundOne(c: char, s: string, n: nat)
    requires BoundFirm(s, n)
    ensures BoundFirm([c] + s, n + 1)
  {
    var text, more := [c] + s, n + 1;
    forall current, inQuotes ensures Adds(text, more, current, inQuotes) {
      AddsOne(c, s, n, current, inQuotes);
    }
    assert text[1..] == s;
    forall current, inQuotes ensures Adds(s, more, current, inQuotes) {
      assert Adds(s, n, current, inQuotes);
    }
  }

  lemma {:induction false} BoundMore(t: string, s: string, n: nat)
    requires BoundFirm(s, n)
    ensures BoundFirm(t + s, n + |t|)
  {
    if |t| == 0 {
      assert t + s == s;
    } else {
      BoundMore(t[1..], s, n);
      BoundOne(t[0], t[1..] + s, n + |t| - 1);
      assert [t[0]] + (t[1..] + s) == t + s;
    }
  }

  /** A quote adds nothing. */
  lemma BoundQuote(s: string, n: nat)
    requires Bound(s, n)
    ensures BoundFirm("'" + s, n)
  {
    var text := "'" + s;
    assert text[1..] == s;
    forall current, inQuotes ensures Adds(text, n, current, inQuotes) {
      assert Adds(s, n, current, false) && Adds(s, n, Some(Begun(current)), true);
    }
  }

  /** Read from inside quotes or outside, an escaped quote adds one at most. */
  lemma BoundEscape(s: string, n: nat)
    requires BoundFirm(s, n)
    ensures BoundFirm("'\\''" + s, n + 1)
  {
    var quote := "'" + s;
    BoundQuote(s, n);
    BoundOne('\\', quote, n);
    assert ['\\'] + quote == "\\'" + s;
    EscapeRest(s, n);
    BoundQuote("\\''" + s, n + 1);
    assert "'\\''" + s == "'" + ("\\''" + s);
  }

  lemma EscapeRest(s: string, n: nat)
    requires Bound(s, n)
    ensures Bound("\\''" + s, n + 1)
  {
    var text, more := "\\''" + s, n + 1;
    assert text[1..] == "''" + s && text[2..] == "'" + s && ("''" + s)[1..] == "'" + s && ("'" + s)[1..] == s;
    forall current, inQuotes ensures Adds(text, more, current, inQuotes) {
      if inQuotes {
        var next := Some(Begun(current) + [Piece('\\', true)]);
        assert Lex(text, current, true) == Lex("''" + s, next, true);
        assert Lex("''" + s, next, true) == Lex("'" + s, next, false);
        assert Lex("'" + s, next, false) == Lex(s, next, true);
        assert Adds(s, n, next, true);
      } else {
        var next := Some(Begun(current) + [Piece('\'', true)]);
        assert Lex(text, current, false) == Lex("'" + s, next, false);
        assert Lex("'" + s, next, false) == Lex(s, next, true);
        assert Adds(s, n, next, true);
      }
    }
  }

  lemma {:induction false} BoundEscaped(value: string, s: string, n: nat)
    requires BoundFirm(s, n)
    ensures BoundFirm(Escaped(value) + s, n + |value|)
  {
    if |value| == 0 {
      assert Escaped(value) + s == s;
    } else {
      var rest := Escaped(value[1..]) + s;
      BoundEscaped(value[1..], s, n);
      if value[0] == '\'' {
        BoundEscape(rest, n + |value| - 1);
        Regroup3("'\\''", Escaped(value[1..]), s);
      } else {
        BoundOne(value[0], rest, n + |value| - 1);
        Regroup3([value[0]], Escaped(value[1..]), s);
      }
    }
  }

  /** A token as printed adds no more than the token, from whatever state it is read. */
  lemma BoundToken(token: string, s: string, n: nat)
    requires BoundFirm(s, n)
    ensures BoundFirm(ArgQuote(token) + s, n + |token|)
  {
    if ArgQuote(token) == token {
      BoundMore(token, s, n);
    } else {
      BoundQuote(s, n);
      BoundEscaped(token, "'" + s, n);
      BoundQuote(Escaped(token) + ("'" + s), n + |token|);
      Regroup4("'", Escaped(token), "'", s);
    }
  }

  function ArgsSpaced(tokens: seq<string>): string {
    if |tokens| == 0 then "" else " " + (ArgQuote(tokens[0]) + ArgsSpaced(tokens[1..]))
  }

  lemma {:induction false} ArgsTextIs(tokens: seq<string>)
    ensures ArgsText(tokens) == ArgsSpaced(tokens)
  {
    if |tokens| > 0 {
      ArgsTextIs(tokens[1..]);
      assert ArgTokens(tokens)[1..] == ArgTokens(tokens[1..]);
      if |tokens| == 1 {
        AddNothing(ArgQuote(tokens[0]));
      } else {
        Regroup3(ArgQuote(tokens[0]), " ", JoinSpaced(ArgTokens(tokens[1..])));
      }
    }
  }

  lemma BoundEnd()
    ensures BoundFirm("", 0)
  {
    forall current, inQuotes ensures Adds("", 0, current, inQuotes) {
      DelimitWeight(current, Some([]));
    }
  }

  lemma BoundSpace(s: string, n: nat)
    requires BoundFirm(s, n)
    ensures BoundFirm(" " + s, n + 1) && Bound((" " + s)[1..], n)
  {
    BoundOne(' ', s, n);
    assert (" " + s)[1..] == s;
  }

  lemma {:induction false} BoundArgs(tokens: seq<string>)
    ensures BoundFirm(ArgsSpaced(tokens), Size(tokens))
    ensures |tokens| > 0 ==> Size(tokens) > 0 && Bound(ArgsSpaced(tokens)[1..], Size(tokens) - 1)
  {
    if |tokens| == 0 {
      BoundEnd();
    } else {
      BoundArgs(tokens[1..]);
      BoundToken(tokens[0], ArgsSpaced(tokens[1..]), Size(tokens[1..]));
      BoundSpace(ArgQuote(tokens[0]) + ArgsSpaced(tokens[1..]), Size(tokens) - 1);
    }
  }

  /** The plain characters an address begins with. */
  function PlainPrefix(url: string): (n: nat)
    ensures n <= |url| && (forall i :: 0 <= i < n ==> PlainCharacter(url[i])) && (n < |url| ==> !PlainCharacter(url[n]))
  {
    if |url| == 0 || !PlainCharacter(url[0]) then 0 else 1 + PlainPrefix(url[1..])
  }

  /** And one less, once a backslash has taken its first character. */
  ghost predicate BoundRest(s: string, n: nat) {
    Bound(s, n) && (|s| > 0 ==> n > 0 && Bound(s[1..], n - 1))
  }

  lemma RestBound(rest: string, args: string, n: nat)
    requires BoundFirm(args, n) && BoundRest(args, n)
    ensures BoundRest(rest + args, |rest| + n)
  {
    if |rest| > 0 {
      BoundBehind(rest, args, n);
      BoundBehind(rest[1..], args, n);
      assert (rest + args)[1..] == rest[1..] + args;
    } else {
      assert rest + args == args;
    }
  }

  lemma BoundBehind(rest: string, args: string, n: nat)
    requires BoundFirm(args, n)
    ensures Bound(rest + args, |rest| + n)
  {
    BoundMore(rest, args, n);
  }

  /** At the first character that is not plain, something is lost. */
  lemma LostAt(c: char, s: string, n: nat, current: Option<Word>)
    requires !PlainCharacter(c) && !Blank(c) && BoundRest(s, n)
    ensures var words := Lex([c] + s, current, false); words.Some? ==> Weight(words.value) <= Begins(current) + n
  {
    var text := [c] + s;
    assert text[1..] == s;
    if c == '\'' {
      assert Adds(s, n, Some(Begun(current)), true);
    } else if c == '\\' && |s| > 0 {
      assert text[2..] == s[1..];
      assert Adds(s[1..], n - 1, current, false)
          && Adds(s[1..], n - 1, Some(Begun(current) + [Piece(s[0], true)]), false);
    }
  }

  /** A blank ends the word in progress. */
  lemma EndsAt(c: char, s: string, n: nat, current: Option<Word>)
    requires Blank(c) && Bound(s, n)
    ensures var words := Lex([c] + s, current, false);
            words.Some? ==> if current.Some? then |words.value| > 0 && words.value[0] == current.value
                            else Weight(words.value) <= 1 + n
  {
    assert ([c] + s)[1..] == s;
    assert Adds(s, n, None, false);
    assert current.None? && Lex(s, None, false).Some? ==> [] + Lex(s, None, false).value == Lex(s, None, false).value;
  }

  lemma LiteralsFirst(words: seq<Word>, literals: seq<string>)
    requires Literals(words) == literals && |literals| > 0
    ensures |words| > 0 && |words[0]| == |literals[0]|
  {
  }

  /** From the word in progress on, something is lost or the word ends. */
  lemma LostOrEnds(c: char, s: string, n: nat, current: Option<Word>)
    requires !PlainCharacter(c) && BoundRest(s, n)
    ensures var words := Lex([c] + s, current, false);
            words.Some? ==>
              || Weight(words.value) < Begins(current) + n + 1
              || (current.Some? && |words.value| > 0 && words.value[0] == current.value)
  {
    if Blank(c) {
      EndsAt(c, s, n, current);
    } else {
      LostAt(c, s, n, current);
    }
  }

  /** An address with a character that is not plain, behind plain ones. */
  lemma MisreadBehind(first: string, c: char, s: string, n: nat, line: string, words: seq<Word>)
    requires !PlainCharacter(c) && (|first| > 0 ==> Plain(first)) && BoundRest(s, n)
    requires line == first + ([c] + s) && Lex(line, None, false) == Some(words)
    ensures Weight(words) < |first| + 1 + n + 1 || (|words| > 0 && |words[0]| == |first|)
  {
    if |first| > 0 {
      LexPlainWord(first, [c] + s);
      LostOrEnds(c, s, n, Some(Pieces(first, false)));
    } else {
      assert line == [c] + s;
      LostOrEnds(c, s, n, None);
    }
  }

  lemma MisreadEmpty(tokens: seq<string>, words: seq<Word>)
    requires Lex(ArgsSpaced(tokens), None, false) == Some(words)
    ensures Weight(words) < 1 + Size(tokens)
  {
    BoundArgs(tokens);
    if |tokens| > 0 {
      var args := ArgsSpaced(tokens);
      EndsAt(' ', args[1..], Size(tokens) - 1, None);
      assert [' '] + args[1..] == args;
    } else {
      DelimitWeight(None, Some([]));
    }
  }

  lemma PlainBehind(url: string, k: nat, s: string)
    requires k < |url|
    ensures url + s == url[..k] + ([url[k]] + (url[k + 1..] + s))
  {
  }

  lemma NotAllPlain(url: string)
    requires |url| > 0 && BeginsPlain(url[0]) && !Plain(url)
    ensures var k := PlainPrefix(url); k < |url| && !PlainCharacter(url[k]) && (k > 0 ==> Plain(url[..k]))
  {
  }

  /** Any other address loses a character, or ends too early. */
  lemma Misread(url: string, k: nat, args: string, n: nat, line: string, words: seq<Word>)
    requires k < |url| && !PlainCharacter(url[k]) && (k > 0 ==> Plain(url[..k]))
    requires line == url + args && Lex(line, None, false) == Some(words)
    requires BoundFirm(args, n) && BoundRest(args, n)
    ensures Weight(words) < |url| + 1 + n || (|words| > 0 && |words[0]| != |url|)
  {
    var first, rest := url[..k], url[k + 1..];
    RestBound(rest, args, n);
    PlainBehind(url, k, args);
    MisreadBehind(first, url[k], rest + args, |rest| + n, line, words);
  }

  lemma CommentRead(url: string, args: string)
    requires |url| > 0 && url[0] == '#'
    ensures Lex(url + args, None, false) == Lex(SkipComment(url[1..] + args), None, false)
  {
    assert (url + args)[0] == '#' && (url + args)[1..] == url[1..] + args;
  }

  lemma AddressMisread(url: string, tokens: seq<string>)
    requires !Plain(url)
    ensures !WordsRead(url + ArgsSpaced(tokens), [url] + tokens)
  {
    var words := Lex(url + ArgsSpaced(tokens), None, false);
    if words.Some? && Literals(words.value) == [url] + tokens {
      WeightIsSize(words.value);
      SizeFirst(url, tokens);
      if |url| == 0 {
        assert url + ArgsSpaced(tokens) == ArgsSpaced(tokens);
        MisreadEmpty(tokens, words.value);
      } else {
        LiteralsFirst(words.value, [url] + tokens);
        BoundArgs(tokens);
        if url[0] == '#' {
          CommentEnds(url[1..] + ArgsSpaced(tokens));
          CommentRead(url, ArgsSpaced(tokens));
        } else if url[0] != '~' {
          NotAllPlain(url);
          Misread(url, PlainPrefix(url), ArgsSpaced(tokens), Size(tokens), url + ArgsSpaced(tokens), words.value);
        }
      }
    }
  }

  lemma SizeFirst(url: string, tokens: seq<string>)
    ensures Size([url] + tokens) == |url| + 1 + Size(tokens)
  {
    assert ([url] + tokens)[1..] == tokens;
  }

  /** An address is read back exactly when it is plain. */
  lemma AddressReadExactly(url: string, tokens: seq<string>)
    ensures WordsRead(url + ArgsText(tokens), [url] + tokens) <==> Plain(url)
  {
    if Plain(url) {
      ReadAddress(url, tokens);
    } else {
      ArgsTextIs(tokens);
      AddressMisread(url, tokens);
    }
  }

  /** Within a word a tilde, a brace, a `!` and a `]` stand for themselves. */
  lemma TildeInsideIsRead(tokens: seq<string>)
    ensures WordsRead("h/~u/{a}!b]" + ArgsText(tokens), ["h/~u/{a}!b]"] + tokens)
    ensures !WordsRead("~u" + ArgsText(tokens), ["~u"] + tokens)
  {
    AddressReadExactly("h/~u/{a}!b]", tokens);
    AddressReadExactly("~u", tokens);
    assert !BeginsPlain("~u"[0]);
  }

  // --- The line read back ------------------------------------------------------------------------

  /** Whatever is read as an assignment assigns to a name. */
  lemma {:induction false} AssignsNames(words: seq<Word>)
    ensures forall b :: b in ReadCommand(words).assignments ==> Name(b.envKey)
  {
    if |words| > 0 && IsAssignment(words[0]) {
      AssignsNames(words[1..]);
    }
  }

  /** A line with a further assignment is read back exactly when the line without it is. */
  lemma AssignmentRead(b: EnvBinding, line: string, env: seq<EnvBinding>, argv: seq<string>)
    requires Name(b.envKey)
    ensures Shell(b.envKey + "=" + ShellQuote(b.value) + (" " + line)) == Some(SimpleCommand([b] + env, argv))
       <==> Shell(line) == Some(SimpleCommand(env, argv))
  {
    var word := LexAssignment(b, " " + line);
    assert (" " + line)[1..] == line;
    var words := Lex(line, None, false);
    if words.Some? {
      var all := [word] + words.value;
      assert all[1..] == words.value;
      var r := ReadCommand(words.value);
      assert ReadCommand(all) == r.(assignments := [b] + r.assignments);
      assert ([b] + r.assignments)[1..] == r.assignments && ([b] + env)[1..] == env;
    }
  }

  lemma {:induction false} NamedReadExactly(env: seq<EnvBinding>, url: string, tokens: seq<string>)
    requires forall b :: b in env ==> Name(b.envKey)
    ensures Shell(RenderCommand(env, url, tokens)) == Some(SimpleCommand(env, [TELO, url] + tokens)) <==> Plain(url)
  {
    if |env| == 0 {
      CommandReadExactly(url, tokens);
      AddressReadExactly(url, tokens);
    } else {
      NamedReadExactly(env[1..], url, tokens);
      CommandFirst(env, url, tokens);
      AssignmentRead(env[0], RenderCommand(env[1..], url, tokens), env[1..], [TELO, url] + tokens);
      assert env == [env[0]] + env[1..];
    }
  }

  /**
   * The shell reads back the assignments and the tokens the line was printed from, one word
   * each, whatever characters their values hold, exactly when the variables are names and the
   * address, which is printed as it is, needs no quoting.
   */
  lemma ShellReadsBack(env: seq<EnvBinding>, url: string, tokens: seq<string>)
    ensures Shell(RenderCommand(env, url, tokens)) == Some(SimpleCommand(env, [TELO, url] + tokens))
       <==> (forall b :: b in env ==> Name(b.envKey)) && Plain(url)
  {
    var words := Lex(RenderCommand(env, url, tokens), None, false);
    if words.Some? {
      AssignsNames(words.value);
    }
    if forall b :: b in env ==> Name(b.envKey) {
      NamedReadExactly(env, url, tokens);
    }
  }
}
