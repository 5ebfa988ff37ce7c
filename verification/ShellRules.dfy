/**
 * Which texts of a generated command stand as they are and which are quoted, said without the
 * printer's functions, and a rendered line.
 */
module ShellRules {
  import opened Prelude
  import opened ShellCommand

  // --- Arguments -----------------------------------------------------------------------------------

  /** A character an argument needs no quotes for. */
  predicate Safe(c: char) {
    c in {'.', '_', '/', ':', '@', '%', '+', '=', ',', '-'} || 'a' <= c <= 'z' || 'A' <= c <= 'Z' || '0' <= c <= '9'
  }

  /** An argument is printed as it stands when it is not empty and safe throughout, else in single quotes. */
  lemma ArgQuoteExactly(token: string)
    ensures ArgQuote(token) == token <==> token != "" && forall i :: 0 <= i < |token| ==> Safe(token[i])
    ensures ArgQuote(token) != token ==> ArgQuote(token) == "'" + Escaped(token) + "'"
  {
    assert forall i :: 0 <= i < |token| ==> (BareCharacter(token[i]) <==> Safe(token[i]));
    if !Bare(token) {
      if Numeral(token) || token == "true" || token == "false" {
        UnquotedIsBare(token);
      }
      QuotedIsLonger(token);
    }
  }

  lemma {:induction false} EscapedIsLonger(value: string)
    ensures |Escaped(value)| >= |value|
  {
    if |value| > 0 {
      EscapedIsLonger(value[1..]);
    }
  }

  lemma QuotedIsLonger(value: string)
    ensures "'" + Escaped(value) + "'" != value
  {
    EscapedIsLonger(value);
  }

  // --- Values ----------------------------------------------------------------------------------------

  predicate AllDigits(s: string) {
    s != "" && forall i :: 0 <= i < |s| ==> s[i] in {'0', '1', '2', '3', '4', '5', '6', '7', '8', '9'}
  }

  /** A sign or none, digits, and a fraction or none. */
  ghost predicate Decimal(value: string, sign: string, whole: string, fraction: string) {
    && value == sign + whole + fraction && (sign == "" || sign == "-") && AllDigits(whole)
    && (fraction == "" || (fraction[0] == '.' && AllDigits(fraction[1..])))
  }

  lemma DigitsExactly(s: string)
    ensures Digits(s) <==> AllDigits(s)
  {
    forall i | 0 <= i < |s| ensures IsDigit(s[i]) <==> s[i] in {'0', '1', '2', '3', '4', '5', '6', '7', '8', '9'} {
    }
  }

  lemma UnsignedExactly(s: string)
    ensures UnsignedNumeral(s) <==> exists whole, fraction :: Decimal(s, "", whole, fraction)
  {
    DigitsExactly(s);
    if Digits(s) {
      assert Decimal(s, "", s, "");
    } else if i :| 0 < i < |s| && s[i] == '.' && Digits(s[..i]) && Digits(s[i + 1..]) {
      DigitsExactly(s[..i]);
      DigitsExactly(s[i + 1..]);
      assert s == "" + s[..i] + s[i..] && s[i..][1..] == s[i + 1..];
      assert Decimal(s, "", s[..i], s[i..]);
    }
    if whole, fraction :| Decimal(s, "", whole, fraction) {
      DecimalIsNumeral(s, whole, fraction);
    }
  }

  lemma DecimalIsNumeral(s: string, whole: string, fraction: string)
    requires Decimal(s, "", whole, fraction)
    ensures UnsignedNumeral(s)
  {
    DigitsExactly(whole);
    if fraction == "" {
      assert s == whole;
    } else {
      var i := |whole|;
      DigitsExactly(fraction[1..]);
      assert s[..i] == whole && s[i + 1..] == fraction[1..] && s[i] == '.';
    }
  }

  /** A sign in front, or none. */
  lemma Signed(value: string, rest: string, sign: string, whole: string, fraction: string)
    requires (sign == "" && value == rest) || (sign == "-" && value == "-" + rest)
    ensures Decimal(value, sign, whole, fraction) <==> Decimal(rest, "", whole, fraction)
  {
    assert "-" + whole + fraction == "-" + ("" + whole + fraction);
    if sign == "-" {
      assert value[1..] == rest;
    }
  }

  lemma NumeralExactly(value: string)
    ensures Numeral(value) <==> exists sign, whole, fraction :: Decimal(value, sign, whole, fraction)
  {
    UnsignedExactly(value);
    if |value| > 0 && value[0] == '-' {
      var rest := value[1..];
      UnsignedExactly(rest);
      if whole, fraction :| Decimal(rest, "", whole, fraction) {
        Signed(value, rest, "-", whole, fraction);
      }
    }
    if sign, whole, fraction :| Decimal(value, sign, whole, fraction) {
      if sign == "-" {
        assert value[0] == '-';
        Signed(value, value[1..], "-", whole, fraction);
      }
    }
  }

  /** A value is printed as it stands when it is a decimal number or a boolean, else in single quotes. */
  lemma ShellQuoteExactly(value: string)
    ensures ShellQuote(value) == value <==>
            value == "true" || value == "false"
            || exists sign, whole, fraction :: Decimal(value, sign, whole, fraction)
    ensures ShellQuote(value) != value ==> ShellQuote(value) == "'" + Escaped(value) + "'"
  {
    NumeralExactly(value);
    QuotedIsLonger(value);
  }

  // --- A line ------------------------------------------------------------------------------------------

  lemma ItsEscaped()
    ensures Escaped("it's") == "it'\\''s"
  {
    assert "it's"[1..] == "t's" && "t's"[1..] == "'s" && "'s"[1..] == "s" && "s"[1..] == "";
    assert Escaped("s") == "s" && Escaped("'s") == "'\\''s" && Escaped("t's") == "t'\\''s";
  }

  lemma SpaceEscaped()
    ensures Escaped("a b") == "a b"
  {
    assert "a b"[1..] == " b" && " b"[1..] == "b" && "b"[1..] == "";
    assert Escaped("b") == "b" && Escaped(" b") == " b";
  }

  lemma NotNumeral(s: string)
    requires |s| > 0 && !IsDigit(s[0]) && s[0] != '-'
    ensures !Numeral(s)
  {
  }

  const LINE_ENV := [EnvBinding("A", "it's"), EnvBinding("P", "80")]

  lemma LineWords()
    ensures EnvWords(LINE_ENV) == ["A='it'\\''s'", "P=80"]
  {
    ItsEscaped();
    NotNumeral("it's");
    assert ShellQuote("it's") == "'it'\\''s'";
    assert Digits("80") && ShellQuote("80") == "80";
    assert LINE_ENV[1..] == [EnvBinding("P", "80")] && LINE_ENV[1..][1..] == [];
    assert "P" + "=" + "80" == "P=80";
    assert EnvWords(LINE_ENV[1..]) == ["P=80"];
    assert "A" + "=" + "'it'\\''s'" == "A='it'\\''s'";
  }

  lemma LineArgs()
    ensures ArgTokens(["-n", "a b"]) == ["-n", "'a b'"]
  {
    SpaceEscaped();
    NotNumeral("a b");
    assert "a b"[1] == ' ' && !Bare("a b");
    assert ["-n", "a b"][1..] == ["a b"] && ["a b"][1..] == [];
    assert ArgQuote("a b") == "'" + "a b" + "'" == "'a b'";
    assert ArgTokens(["a b"]) == ["'a b'"];
    assert Bare("-n");
  }

  lemma TwoSpaced(a: string, b: string)
    ensures JoinSpaced([a, b]) == a + " " + b
  {
    assert [a, b][1..] == [b];
  }

  lemma LineText()
    ensures "A='it'\\''s'" + " " + "P=80" + " " + "telo" + " " + "u" + (" " + ("-n" + " " + "'a b'")) ==
            "A='it'\\''s' P=80 telo u -n 'a b'"
  {
  }

  /** Assignments, the command and its arguments, one space between any two. */
  lemma LineByExample()
    ensures RenderCommand(LINE_ENV, "u", ["-n", "a b"]) == "A='it'\\''s' P=80 telo u -n 'a b'"
  {
    LineWords();
    LineArgs();
    TwoSpaced("A='it'\\''s'", "P=80");
    TwoSpaced("-n", "'a b'");
    LineText();
  }

  // --- What the shell takes as it stands --------------------------------------------------------------

  /** The characters the shell gives a meaning to wherever they stand unquoted. */
  const UNSAFE := {
    ' ', '\t', '\n', '\'', '"', '\\', '|', '&', ';', '<', '>', '(', ')', '$', '`', '*', '?', '['}

  /** A text needs no quoting when it has none of them and begins neither a comment nor a tilde-prefix. */
  lemma PlainExactly(s: string)
    ensures Plain(s) <==> s != "" && s[0] !in {'#', '~'} && forall i :: 0 <= i < |s| ==> s[i] !in UNSAFE
  {
    assert forall i :: 0 <= i < |s| ==> (PlainCharacter(s[i]) <==> s[i] !in UNSAFE);
  }

  /** A variable's name: letters, digits and underscores, no digit first. */
  lemma NameExactly(s: string)
    ensures Name(s) <==>
            && s != "" && !('0' <= s[0] <= '9')
            && forall i :: 0 <= i < |s| ==>
                 'a' <= s[i] <= 'z' || 'A' <= s[i] <= 'Z' || '0' <= s[i] <= '9' || s[i] == '_'
  {
    assert forall i :: 0 <= i < |s| ==>
        (NameCharacter(s[i]) <==> 'a' <= s[i] <= 'z' || 'A' <= s[i] <= 'Z' || '0' <= s[i] <= '9' || s[i] == '_');
  }

  lemma LexLast(c: char, current: Option<Word>)
    requires PlainCharacter(c) && (current.None? ==> BeginsPlain(c))
    ensures Lex([c], current, false) == Some([Begun(current) + [Piece(c, false)]])
  {
    assert [c][1..] == "";
    AddNothing([Begun(current) + [Piece(c, false)]]);
  }

  lemma JoinedWords()
    ensures Lex("a\\\nb\tc", None, false) ==
            Some([[Piece('a', false), Piece('b', false)], [Piece('c', false)]])
  {
    var a, b, c := Piece('a', false), Piece('b', false), Piece('c', false);
    var words: seq<Word> := [[a, b], [c]];
    assert [] + [a] == [a] && [a] + [b] == [a, b] && [] + [c] == [c] && [[a, b]] + [[c]] == words;
    LexLast('c', None);
    assert "\tc"[1..] == "c";
    assert Lex("\tc", Some([a, b]), false) == Some(words);
    LexCharacter('b', "\tc", Some([a]));
    assert "b" + "\tc" == "b\tc";
    assert "\\\nb\tc"[2..] == "b\tc";
    assert Lex("\\\nb\tc", Some([a]), false) == Some(words);
    LexCharacter('a', "\\\nb\tc", None);
    assert "a" + "\\\nb\tc" == "a\\\nb\tc";
  }

  /** An escaped newline joins two lines, a tab parts two words. */
  lemma JoinedLines()
    ensures Shell("a\\\nb\tc") == Some(SimpleCommand([], ["ab", "c"]))
  {
    var ab, c := [Piece('a', false), Piece('b', false)], [Piece('c', false)];
    var words: seq<Word> := [ab, c];
    JoinedWords();
    assert ab[1..][1..] == [] && EqualsAt(ab) == 2;
    assert Literal(ab) == "ab" && Literal(c) == "c";
    assert words[1..] == [c] && words[1..][1..] == [];
    assert Literals(words[1..]) == ["c"];
    assert Literals(words) == ["ab"] + ["c"] == ["ab", "c"];
    assert !IsAssignment(words[0]);
    assert ReadCommand(words) == SimpleCommand([], ["ab", "c"]);
  }

  lemma QuotedName()
    ensures Lex("'A'=b", None, false) == Some([[Piece('A', true), Piece('=', false), Piece('b', false)]])
  {
    var a, e, b := Piece('A', true), Piece('=', false), Piece('b', false);
    var word := [a, e, b];
    var words: seq<Word> := [word];
    assert [] + [a] == [a] && [a] + [e] == [a, e] && [a, e] + [b] == word;
    assert PlainCharacter('b') && PlainCharacter('=');
    LexLast('b', Some([a, e]));
    LexCharacter('=', "b", Some([a]));
    assert "=" + "b" == "=b" && "'=b"[1..] == "=b" && "A'=b"[1..] == "'=b" && "'A'=b"[1..] == "A'=b";
    assert Lex("'=b", Some([a]), true) == Some(words);
    assert Lex("A'=b", Some([]), true) == Some(words);
  }

  /** A quoted name assigns nothing. */
  lemma QuotedNameIsNoAssignment()
    ensures Shell("'A'=b") == Some(SimpleCommand([], ["A=b"]))
  {
    var word := [Piece('A', true), Piece('=', false), Piece('b', false)];
    var words: seq<Word> := [word];
    QuotedName();
    assert word[1..][0] == Piece('=', false) && EqualsAt(word[1..]) == 0 && EqualsAt(word) == 1;
    assert word[..1][0].quoted && !IsAssignment(word);
    assert Literal(word) == "A=b" && words[1..] == [];
    assert Literals(words) == ["A=b"];
    assert ReadCommand(words) == SimpleCommand([], ["A=b"]);
  }
}
