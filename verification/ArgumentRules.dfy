/**
 * What one entry binds and what is wrong with it, said without the reader's functions: the
 * type its values have, the flag or position it writes, and each problem by the entries that
 * have it.
 */
module ArgumentRules {
  import opened ApplicationArguments
  import opened Prelude

  // --- What an entry writes ----------------------------------------------------------------------

  const TYPES: map<string, ValueType> := map[
    "string" := StringType, "integer" := IntegerType, "number" := NumberType, "boolean" := BooleanType]

  ghost predicate Names(d: Doc, t: ValueType) {
    exists name :: d == Str(name) && name in TYPES && TYPES[name] == t
  }

  /** A port is an integer; a variable is of the type it names, or an array of items of one. */
  ghost predicate Typed(block: Block, entry: seq<(string, Doc)>, t: ValueType, repeated: bool) {
    if block == Ports then t == IntegerType && !repeated
    else if repeated then
      && Get(entry, "type") == Str("array")
      && Get(entry, "items").Record? && Names(Get(Get(entry, "items").entries, "type"), t)
    else Names(Get(entry, "type"), t)
  }

  ghost predicate HasType(block: Block, entry: seq<(string, Doc)>) {
    exists t, repeated :: Typed(block, entry, t, repeated)
  }

  ghost predicate HasKey(d: Doc, key: string)
    requires d.Record?
  {
    exists i :: 0 <= i < |d.entries| && d.entries[i].0 == key
  }

  ghost predicate Letter(s: string) {
    |s| == 1 && ('a' <= s[0] <= 'z' || 'A' <= s[0] <= 'Z')
  }

  /** A flag's name alone, or an object with the name, without a position, and perhaps with a letter. */
  ghost predicate WritesFlag(arg: Doc, flag: string, short: Option<string>) {
    || (arg == Str(flag) && short == None)
    || (&& arg.Record? && !HasKey(arg, "position") && Get(arg.entries, "flag") == Str(flag)
        && match short
           case None => Get(arg.entries, "short") == Undefined
           case Some(c) => Get(arg.entries, "short") == Str(c) && Letter(c))
  }

  ghost predicate WritesPosition(arg: Doc, position: nat) {
    arg.Record? && HasKey(arg, "position") && Get(arg.entries, "position") == Integer(position)
  }

  /** `^[A-Za-z0-9][A-Za-z0-9-]*$` */
  ghost predicate FlagText(flag: string) {
    && |flag| > 0 && flag[0] != '-'
    && forall i :: 0 <= i < |flag| ==>
         'a' <= flag[i] <= 'z' || 'A' <= flag[i] <= 'Z' || '0' <= flag[i] <= '9' || flag[i] == '-'
  }

  /** A flag the runtime can tell from its own and from a negation. */
  ghost predicate OwnFlag(flag: string) {
    FlagText(flag) && !("no-" <= flag) && flag != "help"
  }

  lemma FlagTextExactly(flag: string)
    ensures FlagPattern(flag) <==> FlagText(flag)
  {
  }

  lemma TypeExactly(d: Doc, t: ValueType)
    ensures ScalarType(d) == Some(t) <==> Names(d, t)
  {
    if d.Str? && d.s in TYPES {
      assert Names(d, TYPES[d.s]);
    }
  }

  lemma ValueTypeExactly(block: Block, entry: seq<(string, Doc)>, t: ValueType, repeated: bool)
    ensures ReadValueType(block, entry) == Some(TokenType(t, repeated)) <==> Typed(block, entry, t, repeated)
  {
    var d, items := Get(entry, "type"), Get(entry, "items");
    TypeExactly(d, t);
    assert d == Str("array") ==> ScalarType(d).None?;
    if items.Record? {
      TypeExactly(Get(items.entries, "type"), t);
    }
  }

  // --- What it binds ---------------------------------------------------------------------------------

  lemma ArgForms(arg: Doc)
    ensures forall p: nat, f, s :: !(WritesPosition(arg, p) && WritesFlag(arg, f, s))
    ensures forall p: nat, q: nat :: WritesPosition(arg, p) && WritesPosition(arg, q) ==> p == q
    ensures forall f, s, g, t :: WritesFlag(arg, f, s) && WritesFlag(arg, g, t) ==> f == g && s == t
  {
  }

  /** How the reader takes the `arg:` of an entry. */
  lemma ArgExactly(block: Block, name: string, t: TokenType, arg: Doc)
    ensures forall f, s :: WritesFlag(arg, f, s) ==> ReadArg(block, name, t, arg) == ReadFlag(block, name, t, f, s)
    ensures forall p: nat :: WritesPosition(arg, p) ==>
              ReadArg(block, name, t, arg) ==
              if t.valueType == BooleanType then Invalid(BooleanPosition)
              else Bound(Binding(block, name, Position(p), t.valueType, t.repeated))
    ensures !(exists f, s :: WritesFlag(arg, f, s)) && !(exists p: nat :: WritesPosition(arg, p)) ==>
              ReadArg(block, name, t, arg) == Unread
  {
    if arg.Str? {
      assert WritesFlag(arg, arg.s, None);
    } else if arg.Record? {
      assert Has(arg.entries, "position") <==> HasKey(arg, "position");
      var position, flag, short := Get(arg.entries, "position"), Get(arg.entries, "flag"), Get(arg.entries, "short");
      if Has(arg.entries, "position") && position.Integer? && position.n >= 0 {
        assert WritesPosition(arg, position.n);
      }
      if !Has(arg.entries, "position") && flag.Str? {
        assert short.Undefined? ==> WritesFlag(arg, flag.s, None);
        assert short.Str? && ShortPattern(short.s) ==> WritesFlag(arg, flag.s, Some(short.s));
      }
    }
  }

  /** What is read of a flag, by what the flag is. */
  lemma FlagExactly(block: Block, name: string, t: TokenType, flag: string, short: Option<string>)
    ensures ReadFlag(block, name, t, flag, short) ==
            if !FlagText(flag) then Unread
            else if "no-" <= flag then Invalid(NegationPrefix)
            else if flag == "help" then Invalid(ReservedFlag)
            else if t == TokenType(BooleanType, true) then Invalid(BooleanArrayFlag)
            else Bound(Binding(block, name, Flag(flag, short), t.valueType, t.repeated))
  {
    FlagTextExactly(flag);
  }

  /** The form a binding has is the one the entry writes. */
  ghost predicate Forms(arg: Doc, b: Binding) {
    match b.form
    case Position(p) => WritesPosition(arg, p) && b.valueType != BooleanType
    case Flag(f, s) => WritesFlag(arg, f, s) && OwnFlag(f) && !(b.repeated && b.valueType == BooleanType)
  }

  ghost predicate IsBound(block: Block, name: string, entry: seq<(string, Doc)>, b: Binding) {
    && b.block == block && b.name == name && Typed(block, entry, b.valueType, b.repeated)
    && Forms(Get(entry, "arg"), b)
  }

  lemma BoundArg(block: Block, name: string, t: TokenType, arg: Doc, b: Binding)
    ensures ReadArg(block, name, t, arg) == Bound(b) <==>
            && b.block == block && b.name == name && t == TokenType(b.valueType, b.repeated) && Forms(arg, b)
  {
    ArgExactly(block, name, t, arg);
    if f, s :| WritesFlag(arg, f, s) {
      FlagExactly(block, name, t, f, s);
      ArgForms(arg);
    } else if p: nat :| WritesPosition(arg, p) {
      ArgForms(arg);
    }
  }

  /** An entry is bound exactly as it says, where its type and its flag or position allow it. */
  lemma BoundExactly(block: Block, name: string, entry: seq<(string, Doc)>, b: Binding)
    ensures EntryReading(block, name, entry) == Bound(b) <==> IsBound(block, name, entry, b)
  {
    ValueTypeExactly(block, entry, b.valueType, b.repeated);
    var t := ReadValueType(block, entry);
    if t.Some? {
      BoundArg(block, name, t.value, Get(entry, "arg"), b);
    }
  }

  // --- What is wrong with it ---------------------------------------------------------------------------

  /** The entries that have each problem. */
  ghost predicate Wrong(block: Block, entry: seq<(string, Doc)>, problem: Problem) {
    var arg := Get(entry, "arg");
    match problem
    case UnsupportedType => !HasType(block, entry)
    case BooleanPosition =>
      (exists repeated :: Typed(block, entry, BooleanType, repeated)) && exists p: nat :: WritesPosition(arg, p)
    case NegationPrefix => HasType(block, entry) && exists f, s :: WritesFlag(arg, f, s) && FlagText(f) && "no-" <= f
    case ReservedFlag => HasType(block, entry) && exists s :: WritesFlag(arg, "help", s)
    case BooleanArrayFlag =>
      Typed(block, entry, BooleanType, true) && exists f, s :: WritesFlag(arg, f, s) && OwnFlag(f)
    case _ => false
  }

  lemma TypeOnce(block: Block, entry: seq<(string, Doc)>)
    ensures HasType(block, entry) <==> ReadValueType(block, entry).Some?
    ensures forall t, repeated :: Typed(block, entry, t, repeated) <==>
              ReadValueType(block, entry) == Some(TokenType(t, repeated))
  {
    forall t, repeated
      ensures Typed(block, entry, t, repeated) <==> ReadValueType(block, entry) == Some(TokenType(t, repeated))
    {
      ValueTypeExactly(block, entry, t, repeated);
    }
    if ReadValueType(block, entry).Some? {
      var t := ReadValueType(block, entry).value;
      assert Typed(block, entry, t.valueType, t.repeated);
    }
  }

  lemma FlagWrong(block: Block, name: string, entry: seq<(string, Doc)>, t: TokenType, problem: Problem, f: string,
          s: Option<string>)
    requires ReadValueType(block, entry) == Some(t) && WritesFlag(Get(entry, "arg"), f, s)
    ensures EntryReading(block, name, entry) == Invalid(problem) <==> Wrong(block, entry, problem)
  {
    var arg := Get(entry, "arg");
    TypeOnce(block, entry);
    ArgExactly(block, name, t, arg);
    ArgForms(arg);
    FlagExactly(block, name, t, f, s);
    assert FlagText("help");
    assert !("no-" <= "help");
  }

  lemma PositionWrong(block: Block, name: string, entry: seq<(string, Doc)>, t: TokenType, problem: Problem, p: nat)
    requires ReadValueType(block, entry) == Some(t) && WritesPosition(Get(entry, "arg"), p)
    ensures EntryReading(block, name, entry) == Invalid(problem) <==> Wrong(block, entry, problem)
  {
    TypeOnce(block, entry);
    ArgExactly(block, name, t, Get(entry, "arg"));
    ArgForms(Get(entry, "arg"));
  }

  /** A problem is reported of what an entry writes exactly where the entry has it. */
  lemma WrongExactly(block: Block, name: string, entry: seq<(string, Doc)>, problem: Problem)
    ensures EntryReading(block, name, entry) == Invalid(problem) <==> Wrong(block, entry, problem)
  {
    var arg, t := Get(entry, "arg"), ReadValueType(block, entry);
    TypeOnce(block, entry);
    if t.Some? {
      if f, s :| WritesFlag(arg, f, s) {
        FlagWrong(block, name, entry, t.value, problem, f, s);
      } else if p: nat :| WritesPosition(arg, p) {
        PositionWrong(block, name, entry, t.value, problem, p);
      } else {
        ArgExactly(block, name, t.value, arg);
      }
    }
  }

  /** A variable with a type, but with neither an environment variable nor a default. */
  ghost predicate OnlyByFlag(block: Block, entry: seq<(string, Doc)>) {
    && block == Variables && HasType(block, entry)
    && !(exists text :: Get(entry, "env") == Str(text)) && Get(entry, "default") == Undefined
  }

  /** The issues of an entry: that it has no other source, then what is wrong with what it writes. */
  lemma EntryIssuesExactly(block: Block, name: string, entry: seq<(string, Doc)>, problem: Problem)
    ensures Issue(problem, block, name) in EntryIssues(block, name, entry) <==>
            (if problem == NeedsDefault then OnlyByFlag(block, entry) else Wrong(block, entry, problem))
    ensures forall x :: x in EntryIssues(block, name, entry) ==> x.block == block && x.name == name
  {
    TypeOnce(block, entry);
    WrongExactly(block, name, entry, problem);
    WrongExactly(block, name, entry, NeedsDefault);
    assert Get(entry, "env").Str? ==> Get(entry, "env") == Str(Get(entry, "env").s);
  }

  // --- What a document binds -----------------------------------------------------------------------------

  const BLOCK_KEYS: map<Block, string> := map[Variables := "variables", Ports := "ports"]

  /** The entry is an object with an `arg`, and binds `b`. */
  ghost predicate Gives(block: Block, entry: (string, Doc), b: Binding) {
    entry.1.Record? && HasKey(entry.1, "arg") && IsBound(block, entry.0, entry.1.entries, b)
  }

  /** Entry `i` of a block gives the binding. */
  ghost predicate EntryGives(moduleDoc: seq<(string, Doc)>, block: Block, i: nat, b: Binding) {
    && block in BLOCK_KEYS
    && var entries := Get(moduleDoc, BLOCK_KEYS[block]);
       entries.Record? && i < |entries.entries| && Gives(block, entries.entries[i], b)
  }

  lemma EntryBindsExactly(block: Block, entry: (string, Doc), b: Binding)
    ensures b in EntryBindingsOf(block, entry) <==> Gives(block, entry, b)
  {
    if entry.1.Record? {
      assert DeclaresArg(entry.1) <==> HasKey(entry.1, "arg");
      BoundExactly(block, entry.0, entry.1.entries, b);
    }
  }

  lemma {:induction false} BlockBinds(block: Block, entries: seq<(string, Doc)>, b: Binding)
    ensures b in BlockBindings(block, entries) <==> exists i :: 0 <= i < |entries| && Gives(block, entries[i], b)
  {
    if |entries| > 0 {
      var n := |entries| - 1;
      BlockBinds(block, entries[..n], b);
      assert forall i :: 0 <= i < n ==> entries[..n][i] == entries[i];
      EntryBindsExactly(block, entries[n], b);
    }
  }

  /** A document declares the bindings its variables and its ports give, and no others. */
  lemma DeclaredExactly(moduleDoc: seq<(string, Doc)>, b: Binding)
    ensures b in Declared(moduleDoc) <==> exists block, i: nat :: EntryGives(moduleDoc, block, i, b)
  {
    var variables, ports := EntriesOf(moduleDoc, "variables"), EntriesOf(moduleDoc, "ports");
    BlockBinds(Variables, variables, b);
    BlockBinds(Ports, ports, b);
    if i :| 0 <= i < |variables| && Gives(Variables, variables[i], b) {
      assert EntryGives(moduleDoc, Variables, i, b);
    }
    if i :| 0 <= i < |ports| && Gives(Ports, ports[i], b) {
      assert EntryGives(moduleDoc, Ports, i, b);
    }
    if block, i: nat :| EntryGives(moduleDoc, block, i, b) {
      assert block == Variables ==> Gives(Variables, variables[i], b);
      assert block == Ports ==> Gives(Ports, ports[i], b);
    }
  }

  /** A flag is spelled with two dashes, a boolean's also with `no-`, a short with one. */
  lemma SpellingsExactly(b: Binding, token: string)
    ensures token in Spellings(b) <==>
            exists flag, short :: b.form == Flag(flag, short)
              && (|| token == "--" + flag
                  || (b.valueType == BooleanType && token == "--no-" + flag)
                  || (short.Some? && token == "-" + short.value))
  {
    if b.form.Flag? {
      assert "--" + NEGATION + b.form.flag == "--no-" + b.form.flag;
    }
  }

  // --- By example ------------------------------------------------------------------------------------------

  const VERBOSE_ENTRY: seq<(string, Doc)> :=
    [("type", Str("boolean")), ("default", Bool(false)),
     ("arg", Record([("flag", Str("verbose")), ("short", Str("v"))]))]

  const FILES_ENTRY: seq<(string, Doc)> :=
    [("type", Str("array")), ("items", Record([("type", Str("string"))])), ("arg", Record([("position", Integer(0))]))]

  /** A boolean with a short flag is bound. */
  lemma VerboseByExample()
    ensures EntryReading(Variables, "verbose", VERBOSE_ENTRY) ==
            Bound(Binding(Variables, "verbose", Flag("verbose", Some("v")), BooleanType, false))
    ensures EntryIssues(Variables, "verbose", VERBOSE_ENTRY) == []
  {
    var e := VERBOSE_ENTRY;
    assert e[1..] == [("default", Bool(false)), e[2]] && e[1..][1..] == [e[2]];
    assert Get(e, "type") == Str("boolean") && Get(e, "default") == Bool(false) && Get(e, "arg") == e[2].1;
    var arg := e[2].1;
    assert arg.entries[1..] == [("short", Str("v"))];
    assert Get(arg.entries, "flag") == Str("verbose") && Get(arg.entries, "short") == Str("v");
    var b := Binding(Variables, "verbose", Flag("verbose", Some("v")), BooleanType, false);
    assert Names(Str("boolean"), BooleanType);
    assert !HasKey(arg, "position");
    assert "verbose"[0] != "no-"[0] && "verbose"[0] != "help"[0];
    BoundExactly(Variables, "verbose", e, b);
  }

  /** An array at a position is bound, and lacks a default. */
  lemma FilesByExample()
    ensures EntryReading(Variables, "files", FILES_ENTRY) ==
            Bound(Binding(Variables, "files", Position(0), StringType, true))
    ensures EntryIssues(Variables, "files", FILES_ENTRY) == [Issue(NeedsDefault, Variables, "files")]
  {
    var e := FILES_ENTRY;
    assert e[1..] == [e[1], e[2]] && e[1..][1..] == [e[2]] && e[1..][1..][1..] == [];
    assert Get(e, "type") == Str("array") && Get(e, "items") == e[1].1 && Get(e, "arg") == e[2].1;
    assert Get(e, "env") == Undefined && Get(e, "default") == Undefined;
    assert Get(e[1].1.entries, "type") == Str("string");
    assert e[2].1.entries[0].0 == "position" && Get(e[2].1.entries, "position") == Integer(0);
    assert Names(Str("string"), StringType);
    assert HasKey(e[2].1, "position");
    BoundExactly(Variables, "files", e, Binding(Variables, "files", Position(0), StringType, true));
    TypeOnce(Variables, e);
  }
}
