/**
 * `readApplicationArguments`: the reader of the `arg:` key of an application's
 * `variables:` and `ports:` entries, and of every way they conflict.
 *
 * Issues are structured - what is wrong, and the entry it is reported at - where the
 * source writes a sentence and a dotted path.
 */
module ApplicationArguments {
  import opened Prelude

  /** A value read off a document; the keys of a record differ. */
  datatype Doc =
    | Undefined
    | Null
    | Bool(b: bool)
    | Integer(n: int)
    | Fraction
    | Str(s: string)
    | List(items: seq<Doc>)
    | Record(entries: seq<(string, Doc)>)

  datatype Block = Variables | Ports | Secrets

  datatype ValueType = StringType | IntegerType | NumberType | BooleanType

  datatype Form =
    | Flag(flag: string, short: Option<string>)
    | Position(position: nat)

  datatype Binding = Binding(block: Block, name: string, form: Form, valueType: ValueType, repeated: bool)

  datatype Problem =
    | OnSecret
    | UnsupportedType
    | NeedsDefault
    | BooleanPosition
    | NegationPrefix
    | ReservedFlag
    | BooleanArrayFlag
    | DuplicateFlag
    | DuplicateShort
    | DuplicatePosition
    | PositionGap
    | CollectsTooEarly

  /** The path of an issue is `<block>.<name>.arg`. */
  datatype Issue = Issue(problem: Problem, block: Block, name: string)

  const HELP := "help"
  const NEGATION := "no-"

  function Get(entries: seq<(string, Doc)>, key: string): Doc {
    if |entries| == 0 then Undefined else if entries[0].0 == key then entries[0].1 else Get(entries[1..], key)
  }

  predicate Has(entries: seq<(string, Doc)>, key: string) {
    exists i :: 0 <= i < |entries| && entries[i].0 == key
  }

  // --- One entry ------------------------------------------------------------------------

  predicate IsLetter(c: char) { 'A' <= c <= 'Z' || 'a' <= c <= 'z' }

  predicate IsLetterOrDigit(c: char) { IsLetter(c) || '0' <= c <= '9' }

  predicate FlagPattern(s: string) {
    |s| > 0 && IsLetterOrDigit(s[0]) && forall i :: 0 <= i < |s| ==> IsLetterOrDigit(s[i]) || s[i] == '-'
  }

  predicate ShortPattern(s: string) {
    |s| == 1 && IsLetter(s[0])
  }

  function ScalarType(d: Doc): Option<ValueType> {
    if d == Str("string") then Some(StringType)
    else if d == Str("integer") then Some(IntegerType)
    else if d == Str("number") then Some(NumberType)
    else if d == Str("boolean") then Some(BooleanType)
    else None
  }

  datatype TokenType = TokenType(valueType: ValueType, repeated: bool)

  /** `None` where the type cannot take a command-line value. */
  function ReadValueType(block: Block, entry: seq<(string, Doc)>): Option<TokenType> {
    if block == Ports then Some(TokenType(IntegerType, false))
    else
      var scalar := ScalarType(Get(entry, "type"));
      if scalar.Some? then Some(TokenType(scalar.value, false))
      else if Get(entry, "type") == Str("array") then
        var items := Get(entry, "items");
        var item := if items.Record? then ScalarType(Get(items.entries, "type")) else None;
        if item.Some? then Some(TokenType(item.value, true)) else None
      else None
  }

  /** What an entry declares, or what is wrong with it; neither where the schema refuses it. */
  datatype Reading = Bound(binding: Binding) | Invalid(problem: Problem) | Unread

  function ReadFlag(block: Block, name: string, t: TokenType, flag: string, short: Option<string>): Reading {
    if !FlagPattern(flag) then Unread
    else if NEGATION <= flag then Invalid(NegationPrefix)
    else if flag == HELP then Invalid(ReservedFlag)
    else if t.repeated && t.valueType.BooleanType? then Invalid(BooleanArrayFlag)
    else Bound(Binding(block, name, Flag(flag, short), t.valueType, t.repeated))
  }

  function ReadArg(block: Block, name: string, t: TokenType, arg: Doc): Reading {
    if arg.Str? then ReadFlag(block, name, t, arg.s, None)
    else if !arg.Record? then Unread
    else if Has(arg.entries, "position") then
      var position := Get(arg.entries, "position");
      if !position.Integer? || position.n < 0 then Unread
      else if t.valueType.BooleanType? then Invalid(BooleanPosition)
      else Bound(Binding(block, name, Position(position.n), t.valueType, t.repeated))
    else
      var flag, short := Get(arg.entries, "flag"), Get(arg.entries, "short");
      if !flag.Str? then Unread
      else if short.Undefined? then ReadFlag(block, name, t, flag.s, None)
      else if !short.Str? || !ShortPattern(short.s) then Unread
      else ReadFlag(block, name, t, flag.s, Some(short.s))
  }

  /** A variable the environment cannot set must have a default. */
  predicate LacksDefault(block: Block, entry: seq<(string, Doc)>) {
    block == Variables && !Get(entry, "env").Str? && Get(entry, "default").Undefined?
  }

  function EntryReading(block: Block, name: string, entry: seq<(string, Doc)>): Reading {
    var t := ReadValueType(block, entry);
    if t.None? then Invalid(UnsupportedType) else ReadArg(block, name, t.value, Get(entry, "arg"))
  }

  function EntryIssues(block: Block, name: string, entry: seq<(string, Doc)>): seq<Issue> {
    var reading := EntryReading(block, name, entry);
    var missing := if ReadValueType(block, entry).Some? && LacksDefault(block, entry) then
        [Issue(NeedsDefault, block, name)] else [];
    missing + if reading.Invalid? then [Issue(reading.problem, block, name)] else []
  }

  // --- The whole document -----------------------------------------------------------------

  predicate DeclaresArg(d: Doc) {
    d.Record? && Has(d.entries, "arg")
  }

  function EntryBindingsOf(block: Block, entry: (string, Doc)): seq<Binding> {
    if DeclaresArg(entry.1) && EntryReading(block, entry.0, entry.1.entries).Bound?
    then [EntryReading(block, entry.0, entry.1.entries).binding] else []
  }

  function EntryIssuesIn(block: Block, entry: (string, Doc)): seq<Issue> {
    if DeclaresArg(entry.1) then EntryIssues(block, entry.0, entry.1.entries) else []
  }

  function BlockBindings(block: Block, entries: seq<(string, Doc)>): seq<Binding> {
    if |entries| == 0 then []
    else BlockBindings(block, entries[..|entries| - 1]) + EntryBindingsOf(block, entries[|entries| - 1])
  }

  function BlockIssues(block: Block, entries: seq<(string, Doc)>): seq<Issue> {
    if |entries| == 0 then []
    else BlockIssues(block, entries[..|entries| - 1]) + EntryIssuesIn(block, entries[|entries| - 1])
  }

  lemma BlockNext(block: Block, before: seq<(string, Doc)>, last: (string, Doc))
    ensures BlockIssues(block, before + [last]) == BlockIssues(block, before) + EntryIssuesIn(block, last)
    ensures BlockBindings(block, before + [last]) == BlockBindings(block, before) + EntryBindingsOf(block, last)
  {
    assert (before + [last])[..|before|] == before;
  }

  function SecretIssues(entries: seq<(string, Doc)>): seq<Issue> {
    if |entries| == 0 then []
    else
      var last := entries[|entries| - 1];
      SecretIssues(entries[..|entries| - 1])
      + if DeclaresArg(last.1) then [Issue(OnSecret, Secrets, last.0)] else []
  }

  function EntriesOf(moduleDoc: seq<(string, Doc)>, block: string): seq<(string, Doc)> {
    var d := Get(moduleDoc, block);
    if d.Record? then d.entries else []
  }

  /** Every binding the document declares, in declaration order. */
  function Declared(moduleDoc: seq<(string, Doc)>): seq<Binding> {
    BlockBindings(Variables, EntriesOf(moduleDoc, "variables")) + BlockBindings(Ports, EntriesOf(moduleDoc, "ports"))
  }

  function EntryIssuesOf(moduleDoc: seq<(string, Doc)>): seq<Issue> {
    SecretIssues(EntriesOf(moduleDoc, "secrets"))
    + BlockIssues(Variables, EntriesOf(moduleDoc, "variables"))
    + BlockIssues(Ports, EntriesOf(moduleDoc, "ports"))
  }

  // --- Uniqueness -----------------------------------------------------------------------------

  predicate SharesFlag(a: Binding, b: Binding) {
    a.form.Flag? && b.form.Flag? && a.form.flag == b.form.flag
  }

  predicate SharesShort(a: Binding, b: Binding) {
    a.form.Flag? && b.form.Flag? && a.form.short.Some? && a.form.short == b.form.short
  }

  predicate SharesPosition(a: Binding, b: Binding) {
    a.form.Position? && b.form.Position? && a.form.position == b.form.position
  }

  predicate FlagTaken(before: seq<Binding>, b: Binding) {
    exists i :: 0 <= i < |before| && SharesFlag(before[i], b)
  }

  predicate ShortTaken(before: seq<Binding>, b: Binding) {
    exists i :: 0 <= i < |before| && SharesShort(before[i], b)
  }

  predicate PositionTaken(before: seq<Binding>, b: Binding) {
    exists i :: 0 <= i < |before| && SharesPosition(before[i], b)
  }

  function Reported(problem: Problem, b: Binding, wrong: bool): seq<Issue> {
    if wrong then [Issue(problem, b.block, b.name)] else []
  }

  /** What `b` repeats of the bindings before it. */
  function Repeats(before: seq<Binding>, b: Binding): seq<Issue> {
    var flag, short := Issue(DuplicateFlag, b.block, b.name), Issue(DuplicateShort, b.block, b.name);
    if FlagTaken(before, b) then if ShortTaken(before, b) then [flag, short] else [flag]
    else if ShortTaken(before, b) then [short]
    else if PositionTaken(before, b) then [Issue(DuplicatePosition, b.block, b.name)]
    else []
  }

  function RepeatIssues(bindings: seq<Binding>): seq<Issue> {
    if |bindings| == 0 then []
    else
      var n := |bindings| - 1;
      RepeatIssues(bindings[..n]) + Repeats(bindings[..n], bindings[n])
  }

  lemma RepeatsSnoc(before: seq<Binding>, b: Binding)
    ensures RepeatIssues(before + [b]) == RepeatIssues(before) + Repeats(before, b)
  {
    assert (before + [b])[..|before|] == before;
  }

  /** The flags, shorts and positions the bindings so far have taken. */
  ghost predicate Knows(before: seq<Binding>, flags: set<string>, shorts: set<string>, positions: set<nat>) {
    && (forall f :: f in flags <==> exists j :: 0 <= j < |before| && before[j].form.Flag? && before[j].form.flag == f)
    && (forall s :: s in shorts <==> exists j ::
        0 <= j < |before| && before[j].form.Flag? && before[j].form.short == Some(s))
    && (forall p :: p in positions <==> exists j ::
        0 <= j < |before| && before[j].form.Position? && before[j].form.position == p)
  }

  lemma KnownRepeats(before: seq<Binding>, b: Binding, flags: set<string>, shorts: set<string>, positions: set<nat>)
    requires Knows(before, flags, shorts, positions)
    ensures FlagTaken(before, b) <==> b.form.Flag? && b.form.flag in flags
    ensures ShortTaken(before, b) <==> b.form.Flag? && b.form.short.Some? && b.form.short.value in shorts
    ensures PositionTaken(before, b) <==> b.form.Position? && b.form.position in positions
  {
    if b.form.Flag? && b.form.flag in flags {
      var j :| 0 <= j < |before| && before[j].form.Flag? && before[j].form.flag == b.form.flag;
      assert SharesFlag(before[j], b);
    }
    if b.form.Flag? && b.form.short.Some? && b.form.short.value in shorts {
      var j :| 0 <= j < |before| && before[j].form.Flag? && before[j].form.short == Some(b.form.short.value);
      assert SharesShort(before[j], b);
    }
    if b.form.Position? && b.form.position in positions {
      var j :| 0 <= j < |before| && before[j].form.Position? && before[j].form.position == b.form.position;
      assert SharesPosition(before[j], b);
    }
  }

  function FlagsOf(b: Binding): set<string> {
    if b.form.Flag? then {b.form.flag} else {}
  }

  function ShortsOf(b: Binding): set<string> {
    if b.form.Flag? && b.form.short.Some? then {b.form.short.value} else {}
  }

  function PositionsOf(b: Binding): set<nat> {
    if b.form.Position? then {b.form.position} else {}
  }

  lemma KnowsNext(before: seq<Binding>, b: Binding, flags: set<string>, shorts: set<string>, positions: set<nat>)
    requires Knows(before, flags, shorts, positions)
    ensures Knows(before + [b], flags + FlagsOf(b), shorts + ShortsOf(b), positions + PositionsOf(b))
  {
    var all := before + [b];
    assert all[|before|] == b && forall j :: 0 <= j < |before| ==> all[j] == before[j];
  }

  // --- Positions --------------------------------------------------------------------------------

  type Positional = b: Binding | b.form.Position? witness Binding(Ports, "", Position(0), IntegerType, false)

  /** The first binding of each position, in declaration order. */
  function FirstPositions(bindings: seq<Binding>): seq<Positional> {
    if |bindings| == 0 then []
    else
      var n := |bindings| - 1;
      FirstPositions(bindings[..n])
      + if bindings[n].form.Position? && !PositionTaken(bindings[..n], bindings[n]) then [bindings[n]] else []
  }

  function InsertPosition(b: Positional, sorted: seq<Positional>): seq<Positional> {
    if |sorted| == 0 || b.form.position < sorted[0].form.position then [b] + sorted
    else [sorted[0]] + InsertPosition(b, sorted[1..])
  }

  function SortPositions(s: seq<Positional>): seq<Positional> {
    if |s| == 0 then [] else InsertPosition(s[|s| - 1], SortPositions(s[..|s| - 1]))
  }

  function OrderedPositions(bindings: seq<Binding>): seq<Positional> {
    SortPositions(FirstPositions(bindings))
  }

  function PositionIssuesAt(ordered: seq<Positional>, i: nat): seq<Issue>
    requires i < |ordered|
  {
    Reported(PositionGap, ordered[i], ordered[i].form.position != i)
    + Reported(CollectsTooEarly, ordered[i], ordered[i].repeated && i != |ordered| - 1)
  }

  function PositionIssues(ordered: seq<Positional>, n: nat): seq<Issue>
    requires n <= |ordered|
  {
    if n == 0 then [] else PositionIssues(ordered, n - 1) + PositionIssuesAt(ordered, n - 1)
  }

  function Flags(bindings: seq<Binding>): (r: seq<Binding>)
    ensures forall b :: b in r ==> b in bindings && b.form.Flag?
  {
    if |bindings| == 0 then []
    else
      var n := |bindings| - 1;
      assert bindings[n] in bindings && forall b :: b in bindings[..n] ==> b in bindings;
      Flags(bindings[..n]) + if bindings[n].form.Flag? then [bindings[n]] else []
  }

  /** The bindings the reader returns, and every issue it reports. */
  function Returned(moduleDoc: seq<(string, Doc)>): seq<Binding> {
    Flags(Declared(moduleDoc)) + OrderedPositions(Declared(moduleDoc))
  }

  function AllIssues(moduleDoc: seq<(string, Doc)>): seq<Issue> {
    var ordered := OrderedPositions(Declared(moduleDoc));
    EntryIssuesOf(moduleDoc) + RepeatIssues(Declared(moduleDoc)) + PositionIssues(ordered, |ordered|)
  }

  // --- The reader ---------------------------------------------------------------------------------

  class ArgumentReader {
    var bindings: seq<Binding>
    var issues: seq<Issue>

    constructor ()
      ensures bindings == [] && issues == []
    {
      bindings, issues := [], [];
    }

    method ReadBinding(block: Block, name: string, entry: seq<(string, Doc)>)
      modifies this
      ensures issues == old(issues) + EntryIssues(block, name, entry)
      ensures bindings == old(bindings)
                          + if EntryReading(block, name, entry).Bound? then [EntryReading(block, name, entry).binding]
                              else []
    {
      var t := ReadValueType(block, entry);
      if t.None? {
        issues := issues + [Issue(UnsupportedType, block, name)];
        return;
      }
      if LacksDefault(block, entry) {
        issues := issues + [Issue(NeedsDefault, block, name)];
      }
      match ReadArg(block, name, t.value, Get(entry, "arg"))
      case Bound(binding) => bindings := bindings + [binding];
      case Invalid(problem) => issues := issues + [Issue(problem, block, name)];
      case Unread =>
    }

    /** The next entry of a block, `bs` and `rs` having been there before the block. */
    method ReadNext(block: Block, entry: (string, Doc), ghost before: seq<(string, Doc)>, ghost bs: seq<Binding>,
            ghost rs: seq<Issue>)
      requires bindings == bs + BlockBindings(block, before) && issues == rs + BlockIssues(block, before)
      modifies this
      ensures bindings == bs + BlockBindings(block, before + [entry])
          && issues == rs + BlockIssues(block, before + [entry])
    {
      BlockNext(block, before, entry);
      Regroup3(bs, BlockBindings(block, before), EntryBindingsOf(block, entry));
      Regroup3(rs, BlockIssues(block, before), EntryIssuesIn(block, entry));
      if DeclaresArg(entry.1) {
        ReadBinding(block, entry.0, entry.1.entries);
      }
    }

    method ReadBlock(block: Block, entries: seq<(string, Doc)>)
      modifies this
      ensures bindings == old(bindings) + BlockBindings(block, entries)
      ensures issues == old(issues) + BlockIssues(block, entries)
    {
      ghost var before := [];
      for i := 0 to |entries|
        invariant before == entries[..i]
        invariant bindings == old(bindings) + BlockBindings(block, before)
        invariant issues == old(issues) + BlockIssues(block, before)
      {
        ReadNext(block, entries[i], before, old(bindings), old(issues));
        before := before + [entries[i]];
      }
      assert entries[..|entries|] == entries;
    }

    method CheckSecrets(entries: seq<(string, Doc)>)
      modifies this`issues
      ensures issues == old(issues) + SecretIssues(entries)
    {
      for i := 0 to |entries|
        invariant issues == old(issues) + SecretIssues(entries[..i])
      {
        assert entries[..i + 1][..i] == entries[..i];
        if DeclaresArg(entries[i].1) {
          issues := issues + [Issue(OnSecret, Secrets, entries[i].0)];
        }
      }
      assert entries[..|entries|] == entries;
    }

    /** A flag of the uniqueness loop: what it repeats is reported, what is new is kept. */
    method CheckFlag(binding: Binding, ghost before: seq<Binding>, flags: map<string, Binding>,
            shorts: map<string, Binding>)
      returns (flagsNext: map<string, Binding>, shortsNext: map<string, Binding>)
      requires binding.form.Flag?
      requires FlagTaken(before, binding) <==> binding.form.flag in flags
      requires ShortTaken(before, binding) <==> binding.form.short.Some? && binding.form.short.value in shorts
      modifies this`issues
      ensures issues == old(issues) + Repeats(before, binding)
      ensures flagsNext.Keys == flags.Keys + FlagsOf(binding) && shortsNext.Keys == shorts.Keys + ShortsOf(binding)
    {
      flagsNext, shortsNext := flags, shorts;
      if binding.form.flag in flags {
        issues := issues + [Issue(DuplicateFlag, binding.block, binding.name)];
      } else {
        flagsNext := flags[binding.form.flag := binding];
      }
      if binding.form.short.Some? {
        if binding.form.short.value in shorts {
          issues := issues + [Issue(DuplicateShort, binding.block, binding.name)];
        } else {
          shortsNext := shorts[binding.form.short.value := binding];
        }
      }
    }

    method CheckPosition(binding: Binding, ghost before: seq<Binding>, positions: map<nat, Binding>)
      returns (positionsNext: map<nat, Binding>)
      requires binding.form.Position?
      requires PositionTaken(before, binding) <==> binding.form.position in positions
      modifies this`issues
      ensures issues == old(issues) + Repeats(before, binding)
      ensures positionsNext.Keys == positions.Keys + PositionsOf(binding)
    {
      positionsNext := positions;
      if binding.form.position in positions {
        issues := issues + [Issue(DuplicatePosition, binding.block, binding.name)];
      } else {
        positionsNext := positions[binding.form.position := binding];
      }
    }

    /** One turn of the uniqueness loop. */
    method CheckBinding(binding: Binding, ghost before: seq<Binding>,
                        flags: map<string, Binding>, shorts: map<string, Binding>, positions: map<nat, Binding>)
      returns (flagsNext: map<string, Binding>, shortsNext: map<string, Binding>, positionsNext: map<nat, Binding>)
      requires Knows(before, flags.Keys, shorts.Keys, positions.Keys)
      modifies this`issues
      ensures issues == old(issues) + Repeats(before, binding)
      ensures Knows(before + [binding], flagsNext.Keys, shortsNext.Keys, positionsNext.Keys)
    {
      flagsNext, shortsNext, positionsNext := flags, shorts, positions;
      KnownRepeats(before, binding, flags.Keys, shorts.Keys, positions.Keys);
      KnowsNext(before, binding, flags.Keys, shorts.Keys, positions.Keys);
      if binding.form.Flag? {
        flagsNext, shortsNext := CheckFlag(binding, before, flags, shorts);
        assert positionsNext.Keys == positions.Keys + PositionsOf(binding);
      } else {
        positionsNext := CheckPosition(binding, before, positions);
        assert flagsNext.Keys == flags.Keys + FlagsOf(binding) && shortsNext.Keys == shorts.Keys + ShortsOf(binding);
      }
    }

    method CheckUniqueness()
      modifies this`issues
      ensures issues == old(issues) + RepeatIssues(bindings)
    {
      var flags: map<string, Binding> := map[];
      var shorts: map<string, Binding> := map[];
      var positions: map<nat, Binding> := map[];
      ghost var before := [];
      for i := 0 to |bindings|
        invariant before == bindings[..i]
        invariant issues == old(issues) + RepeatIssues(before)
        invariant Knows(before, flags.Keys, shorts.Keys, positions.Keys)
      {
        RepeatsSnoc(before, bindings[i]);
        Regroup3(old(issues), RepeatIssues(before), Repeats(before, bindings[i]));
        flags, shorts, positions := CheckBinding(bindings[i], before, flags, shorts, positions);
        before := before + [bindings[i]];
      }
      assert bindings[..|bindings|] == bindings;
    }

    method CheckPositions() returns (ordered: seq<Positional>)
      modifies this`issues
      ensures ordered == OrderedPositions(bindings)
      ensures issues == old(issues) + PositionIssues(ordered, |ordered|)
    {
      var byPosition: seq<Positional> := [];
      var known: set<nat> := {};
      for i := 0 to |bindings|
        invariant byPosition == FirstPositions(bindings[..i])
        invariant forall p :: p in known <==> exists j ::
            0 <= j < i && bindings[j].form.Position? && bindings[j].form.position == p
      {
        assert bindings[..i + 1][..i] == bindings[..i];
        if bindings[i].form.Position? && bindings[i].form.position !in known {
          byPosition := byPosition + [bindings[i]];
          known := known + {bindings[i].form.position};
        }
      }
      assert bindings[..|bindings|] == bindings;
      ordered := SortPositions(byPosition);
      ReportPositions(ordered);
    }

    method ReportPositions(ordered: seq<Positional>)
      modifies this`issues
      ensures issues == old(issues) + PositionIssues(ordered, |ordered|)
    {
      for i := 0 to |ordered|
        invariant issues == old(issues) + PositionIssues(ordered, i)
      {
        if ordered[i].form.position != i {
          issues := issues + [Issue(PositionGap, ordered[i].block, ordered[i].name)];
        }
        if ordered[i].repeated && i != |ordered| - 1 {
          issues := issues + [Issue(CollectsTooEarly, ordered[i].block, ordered[i].name)];
        }
      }
    }

    /** Every entry of the document, the secrets first. */
    method ReadEntries(moduleDoc: seq<(string, Doc)>)
      modifies this
      ensures bindings == old(bindings) + Declared(moduleDoc)
      ensures issues == old(issues) + EntryIssuesOf(moduleDoc)
    {
      var secrets, variables, ports :=
        EntriesOf(moduleDoc, "secrets"), EntriesOf(moduleDoc, "variables"), EntriesOf(moduleDoc, "ports");
      CheckSecrets(secrets);
      ReadBlock(Variables, variables);
      ReadBlock(Ports, ports);
      Regroup3(old(bindings), BlockBindings(Variables, variables), BlockBindings(Ports, ports));
      Regroup4(old(issues), SecretIssues(secrets), BlockIssues(Variables, variables), BlockIssues(Ports, ports));
      Regroup3(SecretIssues(secrets), BlockIssues(Variables, variables), BlockIssues(Ports, ports));
    }
  }

  method ReadApplicationArguments(moduleDoc: Doc) returns (bindings: seq<Binding>, issues: seq<Issue>)
    ensures !moduleDoc.Record? ==> bindings == [] && issues == []
    ensures moduleDoc.Record? ==> bindings == Returned(moduleDoc.entries) && issues == AllIssues(moduleDoc.entries)
  {
    if !moduleDoc.Record? {
      return [], [];
    }
    var reader := new ArgumentReader();
    reader.ReadEntries(moduleDoc.entries);
    assert [] + Declared(moduleDoc.entries) == Declared(moduleDoc.entries);
    assert [] + EntryIssuesOf(moduleDoc.entries) == EntryIssuesOf(moduleDoc.entries);
    reader.CheckUniqueness();
    var positions := reader.CheckPositions();
    return Flags(reader.bindings) + positions, reader.issues;
  }

  // --- No binding is lost silently ------------------------------------------------------------------

  function Count(issues: seq<Issue>, problem: Problem): nat {
    if |issues| == 0 then 0
    else Count(issues[..|issues| - 1], problem) + if issues[|issues| - 1].problem == problem then 1 else 0
  }

  lemma {:induction false} CountConcat(a: seq<Issue>, b: seq<Issue>, problem: Problem)
    ensures Count(a + b, problem) == Count(a, problem) + Count(b, problem)
  {
    if |b| == 0 {
      assert a + b == a;
    } else {
      assert (a + b)[..|a + b| - 1] == a + b[..|b| - 1];
      CountConcat(a, b[..|b| - 1], problem);
    }
  }

  lemma {:induction false} CountAbsent(issues: seq<Issue>, problem: Problem)
    ensures Count(issues, problem) == 0 <==> forall i :: i in issues ==> i.problem != problem
  {
    if |issues| > 0 {
      CountAbsent(issues[..|issues| - 1], problem);
      assert issues == issues[..|issues| - 1] + [issues[|issues| - 1]];
    }
  }

  lemma {:induction false} InsertPositionKeeps(b: Positional, sorted: seq<Positional>)
    ensures multiset(InsertPosition(b, sorted)) == multiset(sorted) + multiset{b}
    ensures |InsertPosition(b, sorted)| == |sorted| + 1
  {
    if |sorted| > 0 && sorted[0].form.position <= b.form.position {
      InsertPositionKeeps(b, sorted[1..]);
      assert sorted == [sorted[0]] + sorted[1..];
    }
  }

  lemma {:induction false} SortPositionsKeeps(s: seq<Positional>)
    ensures multiset(SortPositions(s)) == multiset(s)
    ensures |SortPositions(s)| == |s|
    ensures forall b :: b in SortPositions(s) <==> b in s
  {
    if |s| > 0 {
      var n := |s| - 1;
      SortPositionsKeeps(s[..n]);
      InsertPositionKeeps(s[n], SortPositions(s[..n]));
      assert s == s[..n] + [s[n]];
      assert forall b :: b in SortPositions(s) <==> b in multiset(SortPositions(s));
    }
  }

  lemma LastFlag(bindings: seq<Binding>)
    requires |bindings| > 0
    ensures |Flags(bindings)| ==
        |Flags(bindings[..|bindings| - 1])| + if bindings[|bindings| - 1].form.Flag? then 1 else 0
  {
  }

  lemma LastPosition(bindings: seq<Binding>)
    requires |bindings| > 0
    ensures
      var n := |bindings| - 1;
      |FirstPositions(bindings)| == |FirstPositions(bindings[..n])|
        + if bindings[n].form.Position? && !PositionTaken(bindings[..n], bindings[n]) then 1 else 0
  {
  }

  lemma LastRepeat(bindings: seq<Binding>)
    requires |bindings| > 0
    ensures
      var n := |bindings| - 1;
      Count(RepeatIssues(bindings), DuplicatePosition) == Count(RepeatIssues(bindings[..n]), DuplicatePosition)
        + if PositionTaken(bindings[..n], bindings[n]) then 1 else 0
  {
    var n := |bindings| - 1;
    CountConcat(RepeatIssues(bindings[..n]), Repeats(bindings[..n], bindings[n]), DuplicatePosition);
    RepeatsCount(bindings[..n], bindings[n]);
  }

  /** The flags, the first bindings of each position, and the duplicates reported. */
  function Accounted(bindings: seq<Binding>): nat {
    |Flags(bindings)| + |FirstPositions(bindings)| + Count(RepeatIssues(bindings), DuplicatePosition)
  }

  /** The last binding is a flag, the first at its position, or counted as a duplicate. */
  lemma LastCounted(bindings: seq<Binding>, init: seq<Binding>)
    requires |bindings| > 0 && init == bindings[..|bindings| - 1]
    ensures Accounted(bindings) == Accounted(init) + 1
  {
    LastFlag(bindings);
    LastPosition(bindings);
    LastRepeat(bindings);
  }

  lemma {:induction false} SplitCount(bindings: seq<Binding>)
    ensures Accounted(bindings) == |bindings|
  {
    if |bindings| > 0 {
      var init := bindings[..|bindings| - 1];
      SplitCount(init);
      LastCounted(bindings, init);
    }
  }

  lemma RepeatsCount(before: seq<Binding>, b: Binding)
    ensures Count(Repeats(before, b), DuplicatePosition) == if PositionTaken(before, b) then 1 else 0
    ensures PositionTaken(before, b) ==> b.form.Position?
  {
    var r := Repeats(before, b);
    if FlagTaken(before, b) || ShortTaken(before, b) {
      assert b.form.Flag?;
      assert !PositionTaken(before, b);
      assert forall i :: i in r ==> i.problem != DuplicatePosition;
      CountAbsent(r, DuplicatePosition);
    } else if PositionTaken(before, b) {
      assert r[..0] == [];
    }
  }

  lemma {:induction false} PositionIssuesKind(ordered: seq<Positional>, n: nat)
    requires n <= |ordered|
    ensures forall i :: i in PositionIssues(ordered, n) ==> i.problem == PositionGap || i.problem == CollectsTooEarly
  {
    if n > 0 {
      PositionIssuesKind(ordered, n - 1);
    }
  }

  lemma {:induction false} BlockIssuesKind(block: Block, entries: seq<(string, Doc)>)
    ensures forall i :: i in BlockIssues(block, entries) ==> EntryProblem(i.problem)
  {
    if |entries| > 0 {
      BlockIssuesKind(block, entries[..|entries| - 1]);
    }
  }

  /** The problems of one entry, read alone. */
  predicate EntryProblem(p: Problem) {
    p.OnSecret? || p.UnsupportedType? || p.NeedsDefault? || p.BooleanPosition? || p.NegationPrefix? || p.ReservedFlag?
        || p.BooleanArrayFlag?
  }

  lemma {:induction false} SecretIssuesKind(entries: seq<(string, Doc)>)
    ensures forall i :: i in SecretIssues(entries) ==> EntryProblem(i.problem)
  {
    if |entries| > 0 {
      SecretIssuesKind(entries[..|entries| - 1]);
    }
  }

  lemma EntryIssuesKind(moduleDoc: seq<(string, Doc)>)
    ensures forall i :: i in EntryIssuesOf(moduleDoc) ==> EntryProblem(i.problem)
  {
    BlockIssuesKind(Variables, EntriesOf(moduleDoc, "variables"));
    BlockIssuesKind(Ports, EntriesOf(moduleDoc, "ports"));
    SecretIssuesKind(EntriesOf(moduleDoc, "secrets"));
  }

  lemma CountMiddle(a: seq<Issue>, b: seq<Issue>, c: seq<Issue>, problem: Problem)
    requires forall i :: i in a || i in c ==> i.problem != problem
    ensures Count(a + b + c, problem) == Count(b, problem)
  {
    CountConcat(a + b, c, problem);
    CountConcat(a, b, problem);
    CountAbsent(a, problem);
    CountAbsent(c, problem);
  }

  lemma CountAll(moduleDoc: seq<(string, Doc)>, problem: Problem)
    requires problem == DuplicatePosition || problem == DuplicateFlag || problem == DuplicateShort
    ensures Count(AllIssues(moduleDoc), problem) == Count(RepeatIssues(Declared(moduleDoc)), problem)
  {
    var ordered := OrderedPositions(Declared(moduleDoc));
    EntryIssuesKind(moduleDoc);
    PositionIssuesKind(ordered, |ordered|);
    CountMiddle(EntryIssuesOf(moduleDoc), RepeatIssues(Declared(moduleDoc)), PositionIssues(ordered, |ordered|),
        problem);
  }

  lemma {:induction false} MissingReported(bindings: seq<Binding>, b: Binding)
    requires b in bindings && b.form.Position? && b !in FirstPositions(bindings)
    ensures Issue(DuplicatePosition, b.block, b.name) in RepeatIssues(bindings)
  {
    var n := |bindings| - 1;
    if b in bindings[..n] {
      MissingReported(bindings[..n], b);
    } else {
      assert b == bindings[n];
    }
  }

  lemma {:induction false} FlagsAll(bindings: seq<Binding>)
    ensures forall b :: b in Flags(bindings) <==> b in bindings && b.form.Flag?
  {
    if |bindings| > 0 {
      var n := |bindings| - 1;
      FlagsAll(bindings[..n]);
      assert bindings == bindings[..n] + [bindings[n]];
    }
  }

  lemma {:induction false} FlagsConcat(a: seq<Binding>, b: seq<Binding>)
    ensures Flags(a + b) == Flags(a) + Flags(b)
  {
    if |b| == 0 {
      assert a + b == a;
    } else {
      assert (a + b)[..|a + b| - 1] == a + b[..|b| - 1];
      FlagsConcat(a, b[..|b| - 1]);
    }
  }

  lemma {:induction false} NoFlags(bindings: seq<Binding>)
    requires forall b :: b in bindings ==> b.form.Position?
    ensures Flags(bindings) == []
  {
    if |bindings| > 0 {
      NoFlags(bindings[..|bindings| - 1]);
    }
  }

  lemma {:induction false} AllFlags(bindings: seq<Binding>)
    requires forall b :: b in bindings ==> b.form.Flag?
    ensures Flags(bindings) == bindings
  {
    if |bindings| > 0 {
      var n := |bindings| - 1;
      AllFlags(bindings[..n]);
      assert bindings == bindings[..n] + [bindings[n]];
    }
  }

  /**
   * The bindings a document declares and does not get back are as many as the duplicate
   * positions reported, each reported at its own entry; the flags keep their order.
   */
  lemma NoBindingLostSilently(moduleDoc: seq<(string, Doc)>)
    ensures |Declared(moduleDoc)| - |Returned(moduleDoc)| == Count(AllIssues(moduleDoc), DuplicatePosition)
    ensures forall b :: b in Declared(moduleDoc) && b !in Returned(moduleDoc) ==>
              Issue(DuplicatePosition, b.block, b.name) in AllIssues(moduleDoc)
    ensures forall b :: b in Returned(moduleDoc) ==> b in Declared(moduleDoc)
    ensures Flags(Returned(moduleDoc)) == Flags(Declared(moduleDoc))
  {
    var declared := Declared(moduleDoc);
    var ordered := OrderedPositions(declared);
    SplitCount(declared);
    CountAll(moduleDoc, DuplicatePosition);
    SortPositionsKeeps(FirstPositions(declared));
    FlagsAll(declared);
    FirstPositionsDeclared(declared);
    forall b | b in declared && b !in Returned(moduleDoc)
      ensures Issue(DuplicatePosition, b.block, b.name) in AllIssues(moduleDoc)
    {
      assert b !in Flags(declared) && b !in ordered;
      MissingReported(declared, b);
    }
    FlagsConcat(Flags(declared), ordered);
    AllFlags(Flags(declared));
    NoFlags(ordered);
    assert Flags(declared) + [] == Flags(declared);
  }

  lemma {:induction false} FirstPositionsDeclared(bindings: seq<Binding>)
    ensures forall b :: b in FirstPositions(bindings) ==> b in bindings
  {
    if |bindings| > 0 {
      var n := |bindings| - 1;
      FirstPositionsDeclared(bindings[..n]);
      assert bindings == bindings[..n] + [bindings[n]];
    }
  }

  /** Every position bound is the position of some first binding. */
  lemma {:induction false} FirstPositionsCover(bindings: seq<Binding>, b: Binding) returns (f: Positional)
    requires b in bindings && b.form.Position?
    ensures f in FirstPositions(bindings) && f.form.position == b.form.position
  {
    var n := |bindings| - 1;
    assert bindings == bindings[..n] + [bindings[n]];
    if b in bindings[..n] {
      f := FirstPositionsCover(bindings[..n], b);
    } else if PositionTaken(bindings[..n], b) {
      var i :| 0 <= i < n && SharesPosition(bindings[..n][i], b);
      f := FirstPositionsCover(bindings[..n], bindings[..n][i]);
    } else {
      f := b;
    }
  }

  predicate DistinctPositions(s: seq<Positional>) {
    forall i, j :: 0 <= i < j < |s| ==> s[i].form.position != s[j].form.position
  }

  lemma {:induction false} FirstPositionsDistinct(bindings: seq<Binding>)
    ensures DistinctPositions(FirstPositions(bindings))
  {
    if |bindings| > 0 {
      var n := |bindings| - 1;
      var b := bindings[n];
      FirstPositionsDistinct(bindings[..n]);
      FirstPositionsDeclared(bindings[..n]);
      var firsts := FirstPositions(bindings[..n]);
      if b.form.Position? && !PositionTaken(bindings[..n], b) {
        forall j | 0 <= j < |firsts| ensures firsts[j].form.position != b.form.position {
          assert firsts[j] in bindings[..n];
          var k :| 0 <= k < n && bindings[..n][k] == firsts[j];
          assert !SharesPosition(bindings[..n][k], b);
        }
      }
    }
  }

  // --- Positions, once sorted ---------------------------------------------------------------------

  predicate Increasing(s: seq<Positional>) {
    forall i, j :: 0 <= i < j < |s| ==> s[i].form.position < s[j].form.position
  }

  lemma {:induction false} InsertIncreasing(b: Positional, sorted: seq<Positional>)
    requires Increasing(sorted)
    requires forall x :: x in sorted ==> x.form.position != b.form.position
    ensures Increasing(InsertPosition(b, sorted))
  {
    if |sorted| > 0 && sorted[0].form.position < b.form.position {
      var tail := InsertPosition(b, sorted[1..]);
      InsertIncreasing(b, sorted[1..]);
      InsertPositionKeeps(b, sorted[1..]);
      forall j | 0 <= j < |tail| ensures sorted[0].form.position < tail[j].form.position {
        assert tail[j] in multiset(tail);
        if tail[j] != b {
          var k :| 0 <= k < |sorted[1..]| && sorted[1..][k] == tail[j];
          assert sorted[k + 1] == tail[j];
        }
      }
    }
  }

  lemma {:induction false} SortIncreasing(s: seq<Positional>)
    requires DistinctPositions(s)
    ensures Increasing(SortPositions(s))
  {
    if |s| > 0 {
      var n := |s| - 1;
      SortIncreasing(s[..n]);
      SortPositionsKeeps(s[..n]);
      InsertIncreasing(s[n], SortPositions(s[..n]));
    }
  }

  lemma OrderedIncreasing(bindings: seq<Binding>)
    ensures Increasing(OrderedPositions(bindings))
  {
    FirstPositionsDistinct(bindings);
    SortIncreasing(FirstPositions(bindings));
  }

  lemma NextCount(ordered: seq<Positional>, n: nat, problem: Problem)
    requires 0 < n <= |ordered|
    ensures Count(PositionIssues(ordered, n), problem) == 0 <==>
            Count(PositionIssues(ordered, n - 1), problem) == 0
            && forall x :: x in PositionIssuesAt(ordered, n - 1) ==> x.problem != problem
  {
    CountConcat(PositionIssues(ordered, n - 1), PositionIssuesAt(ordered, n - 1), problem);
    CountAbsent(PositionIssuesAt(ordered, n - 1), problem);
  }

  lemma NextGap(ordered: seq<Positional>, n: nat)
    requires 0 < n <= |ordered|
    ensures Count(PositionIssues(ordered, n), PositionGap) == 0 <==>
            Count(PositionIssues(ordered, n - 1), PositionGap) == 0 && ordered[n - 1].form.position == n - 1
  {
    NextCount(ordered, n, PositionGap);
    PositionIssuesAtHold(ordered, n - 1);
  }

  lemma NextCollects(ordered: seq<Positional>, n: nat)
    requires 0 < n <= |ordered|
    ensures Count(PositionIssues(ordered, n), CollectsTooEarly) == 0 <==>
            && Count(PositionIssues(ordered, n - 1), CollectsTooEarly) == 0
            && (ordered[n - 1].repeated ==> n == |ordered|)
  {
    NextCount(ordered, n, CollectsTooEarly);
    PositionIssuesAtHold(ordered, n - 1);
  }

  /** The first `n` bindings stand at their positions. */
  predicate InPlace(ordered: seq<Positional>, n: nat)
    requires n <= |ordered|
  {
    forall i :: 0 <= i < n ==> ordered[i].form.position == i
  }

  lemma InPlaceNext(ordered: seq<Positional>, n: nat)
    requires 0 < n <= |ordered|
    ensures InPlace(ordered, n) <==> InPlace(ordered, n - 1) && ordered[n - 1].form.position == n - 1
  {
  }

  lemma {:induction false} NoGaps(ordered: seq<Positional>, n: nat)
    requires n <= |ordered|
    ensures Count(PositionIssues(ordered, n), PositionGap) == 0 <==> InPlace(ordered, n)
  {
    if n > 0 {
      NoGaps(ordered, n - 1);
      NextGap(ordered, n);
      InPlaceNext(ordered, n);
    }
  }

  lemma {:induction false} OnlyLastCollects(ordered: seq<Positional>, n: nat)
    requires n <= |ordered|
    ensures Count(PositionIssues(ordered, n), CollectsTooEarly) == 0 <==>
            forall i :: 0 <= i < n && ordered[i].repeated ==> i == |ordered| - 1
  {
    if n > 0 {
      OnlyLastCollects(ordered, n - 1);
      NextCollects(ordered, n);
    }
  }

  lemma PositionIssuesHold(ordered: seq<Positional>, n: nat)
    requires n <= |ordered|
    ensures Count(PositionIssues(ordered, n), PositionGap) == 0 <==>
        forall i :: 0 <= i < n ==> ordered[i].form.position == i
    ensures Count(PositionIssues(ordered, n), CollectsTooEarly) == 0 <==>
            forall i :: 0 <= i < n && ordered[i].repeated ==> i == |ordered| - 1
  {
    NoGaps(ordered, n);
    OnlyLastCollects(ordered, n);
  }

  lemma PositionIssuesAtHold(ordered: seq<Positional>, i: nat)
    requires i < |ordered|
    ensures (forall x :: x in PositionIssuesAt(ordered, i) ==> x.problem != PositionGap) <==>
        ordered[i].form.position == i
    ensures (forall x :: x in PositionIssuesAt(ordered, i) ==> x.problem != CollectsTooEarly)
       <==> (ordered[i].repeated ==> i == |ordered| - 1)
  {
    var b := ordered[i];
    if b.form.position != i {
      assert Issue(PositionGap, b.block, b.name) in PositionIssuesAt(ordered, i);
    }
    if b.repeated && i != |ordered| - 1 {
      assert Issue(CollectsTooEarly, b.block, b.name) in PositionIssuesAt(ordered, i);
    }
  }

  /** The positions a document binds. */
  ghost predicate Binds(bindings: seq<Binding>, p: nat) {
    exists i :: 0 <= i < |bindings| && bindings[i].form.Position? && bindings[i].form.position == p
  }

  /** The positions bound run 0, 1, 2, ...: none is bound above one that is not. */
  ghost predicate InitialSegment(bindings: seq<Binding>) {
    forall p: nat, q: nat :: Binds(bindings, p) && q < p ==> Binds(bindings, q)
  }

  ghost predicate Holds(ordered: seq<Positional>, p: nat) {
    exists i :: 0 <= i < |ordered| && ordered[i].form.position == p
  }

  lemma OrderedBinds(bindings: seq<Binding>, p: nat)
    ensures Binds(bindings, p) <==> Holds(OrderedPositions(bindings), p)
  {
    var ordered := OrderedPositions(bindings);
    SortPositionsKeeps(FirstPositions(bindings));
    if Binds(bindings, p) {
      var i :| 0 <= i < |bindings| && bindings[i].form.Position? && bindings[i].form.position == p;
      var f := FirstPositionsCover(bindings, bindings[i]);
      assert f in ordered;
    }
    if i :| 0 <= i < |ordered| && ordered[i].form.position == p {
      FirstPositionsDeclared(bindings);
      assert ordered[i] in ordered;
      assert ordered[i] in bindings;
    }
  }

  lemma {:induction false} IncreasingAbove(s: seq<Positional>, i: nat)
    requires Increasing(s) && i < |s|
    ensures s[i].form.position >= i
  {
    if i > 0 {
      IncreasingAbove(s, i - 1);
    }
  }

  /** No gap is reported exactly when the positions bound are 0, 1, 2, ... without a gap. */
  lemma GapsExactly(bindings: seq<Binding>)
    ensures
      var ordered := OrderedPositions(bindings);
      Count(PositionIssues(ordered, |ordered|), PositionGap) == 0 <==> InitialSegment(bindings)
  {
    var ordered := OrderedPositions(bindings);
    OrderedIncreasing(bindings);
    PositionIssuesHold(ordered, |ordered|);
    forall p: nat
      ensures Binds(bindings, p) <==> Holds(ordered, p)
    {
      OrderedBinds(bindings, p);
    }
    if forall i :: 0 <= i < |ordered| ==> ordered[i].form.position == i {
      forall p: nat, q: nat | Binds(bindings, p) && q < p ensures Binds(bindings, q) {
        assert ordered[q].form.position == q;
        assert Holds(ordered, q);
      }
    }
    if InitialSegment(bindings) {
      SegmentFills(ordered, 0);
    }
  }

  /** An increasing list that skips no number holds each at its own index. */
  lemma {:induction false} SegmentFills(ordered: seq<Positional>, i: nat)
    requires Increasing(ordered)
    requires forall p: nat, q: nat :: Holds(ordered, p) && q < p ==> Holds(ordered, q)
    requires i <= |ordered|
    requires forall k :: 0 <= k < i ==> ordered[k].form.position == k
    ensures forall k :: 0 <= k < |ordered| ==> ordered[k].form.position == k
    decreases |ordered| - i
  {
    if i < |ordered| {
      IncreasingAbove(ordered, i);
      assert Holds(ordered, ordered[i].form.position);
      assert Holds(ordered, i);
      var k :| 0 <= k < |ordered| && ordered[k].form.position == i;
      assert k >= i;
      SegmentFills(ordered, i + 1);
    }
  }

  // --- The command line is unambiguous --------------------------------------------------------------

  /** The tokens that name a binding. */
  function Spellings(b: Binding): set<string> {
    if b.form.Position? then {}
    else
      {"--" + b.form.flag}
      + (if b.valueType.BooleanType? then {"--" + NEGATION + b.form.flag} else {})
      + (if b.form.short.Some? then {"-" + b.form.short.value} else {})
  }

  /** What the grammar makes of every binding it reads. */
  predicate Grammatical(b: Binding) {
    match b.form
    case Position(_) => !b.valueType.BooleanType?
    case Flag(flag, short) =>
      && FlagPattern(flag) && !(NEGATION <= flag) && flag != HELP
      && (short.Some? ==> ShortPattern(short.value))
      && !(b.repeated && b.valueType.BooleanType?)
  }

  lemma EntryGrammatical(block: Block, name: string, entry: seq<(string, Doc)>)
    ensures EntryReading(block, name, entry).Bound? ==> Grammatical(EntryReading(block, name, entry).binding)
  {
  }

  lemma {:induction false} BlockGrammatical(block: Block, entries: seq<(string, Doc)>)
    ensures forall b :: b in BlockBindings(block, entries) ==> Grammatical(b)
  {
    if |entries| > 0 {
      var last := entries[|entries| - 1];
      BlockGrammatical(block, entries[..|entries| - 1]);
      if DeclaresArg(last.1) {
        EntryGrammatical(block, last.0, last.1.entries);
      }
    }
  }

  lemma DeclaredGrammatical(moduleDoc: seq<(string, Doc)>)
    ensures forall b :: b in Declared(moduleDoc) ==> Grammatical(b)
  {
    BlockGrammatical(Variables, EntriesOf(moduleDoc, "variables"));
    BlockGrammatical(Ports, EntriesOf(moduleDoc, "ports"));
  }

  predicate SharesSpelling(a: Binding, b: Binding) {
    SharesFlag(a, b) || SharesShort(a, b)
  }

  lemma LongFlag(x: string, f: string)
    ensures "--" + x == "--" + f <==> x == f
  {
    assert ("--" + x)[2..] == x && ("--" + f)[2..] == f;
  }

  lemma ShortFlag(s: string, f: string)
    requires ShortPattern(s)
    ensures "-" + s != "--" + f
  {
    assert ("-" + s)[1] == s[0] && ("--" + f)[1] == '-';
  }

  lemma ShortFlags(s: string, t: string)
    ensures "-" + s == "-" + t <==> s == t
  {
    assert ("-" + s)[1..] == s && ("-" + t)[1..] == t;
  }

  lemma NegatedFlag(x: string)
    ensures "--" + NEGATION + x == "--" + (NEGATION + x)
    ensures NEGATION <= NEGATION + x
  {
  }

  /** No flag is the negation of another, and no short is a flag. */
  lemma SpellingsDisjoint(a: Binding, b: Binding)
    requires Grammatical(a) && Grammatical(b)
    requires a.form.Flag? && b.form.Flag?
    ensures Spellings(a) !! Spellings(b) <==> !SharesSpelling(a, b)
  {
    var f, g := a.form.flag, b.form.flag;
    LongFlag(f, g);
    NegatedFlag(f);
    NegatedFlag(g);
    LongFlag(NEGATION + f, g);
    LongFlag(f, NEGATION + g);
    LongFlag(NEGATION + f, NEGATION + g);
    assert (NEGATION + f)[3..] == f && (NEGATION + g)[3..] == g;
    if a.form.short.Some? {
      ShortFlag(a.form.short.value, g);
      ShortFlag(a.form.short.value, NEGATION + g);
      if b.form.short.Some? {
        ShortFlags(a.form.short.value, b.form.short.value);
      }
    }
    if b.form.short.Some? {
      ShortFlag(b.form.short.value, f);
      ShortFlag(b.form.short.value, NEGATION + f);
    }
    if SharesFlag(a, b) {
      assert "--" + f in Spellings(a) && "--" + f in Spellings(b);
    }
    if SharesShort(a, b) {
      assert "-" + a.form.short.value in Spellings(a) && "-" + a.form.short.value in Spellings(b);
    }
  }

  lemma HelpIsFree(b: Binding)
    requires Grammatical(b)
    ensures "--" + HELP !in Spellings(b)
  {
    if b.form.Flag? {
      LongFlag(HELP, b.form.flag);
      NegatedFlag(b.form.flag);
      LongFlag(HELP, NEGATION + b.form.flag);
      assert (NEGATION + b.form.flag)[0] != HELP[0];
      if b.form.short.Some? {
        ShortFlag(b.form.short.value, HELP);
      }
    }
  }

  ghost predicate Unshared(bindings: seq<Binding>) {
    forall i, j :: 0 <= i < j < |bindings| ==>
      !SharesFlag(bindings[i], bindings[j]) && !SharesShort(bindings[i], bindings[j])
          && !SharesPosition(bindings[i], bindings[j])
  }

  predicate Fresh(before: seq<Binding>, b: Binding) {
    !FlagTaken(before, b) && !ShortTaken(before, b) && !PositionTaken(before, b)
  }

  lemma FreshUnshared(bindings: seq<Binding>)
    requires |bindings| > 0
    ensures
      var n := |bindings| - 1;
      Unshared(bindings) <==> Unshared(bindings[..n]) && Fresh(bindings[..n], bindings[n])
  {
    var n := |bindings| - 1;
    var before, b := bindings[..n], bindings[n];
    assert forall i :: 0 <= i < n ==> before[i] == bindings[i];
    if Fresh(before, b) {
      forall i | 0 <= i < n
        ensures !SharesFlag(bindings[i], b) && !SharesShort(bindings[i], b) && !SharesPosition(bindings[i], b)
      {
        assert !SharesFlag(before[i], b) && !SharesShort(before[i], b) && !SharesPosition(before[i], b);
      }
    }
  }

  lemma NoRepeatsNext(bindings: seq<Binding>, n: nat)
    requires |bindings| == n + 1
    ensures RepeatIssues(bindings) == [] <==> RepeatIssues(bindings[..n]) == [] && Fresh(bindings[..n], bindings[n])
  {
    assert |RepeatIssues(bindings)| == |RepeatIssues(bindings[..n])| + |Repeats(bindings[..n], bindings[n])|;
    assert |Repeats(bindings[..n], bindings[n])| == 0 <==> Fresh(bindings[..n], bindings[n]);
  }

  /** Nothing is reported as repeated exactly when no two bindings share anything. */
  lemma {:induction false} RepeatsExactly(bindings: seq<Binding>)
    ensures RepeatIssues(bindings) == [] <==> Unshared(bindings)
  {
    if |bindings| > 0 {
      RepeatsExactly(bindings[..|bindings| - 1]);
      FreshUnshared(bindings);
      NoRepeatsNext(bindings, |bindings| - 1);
    }
  }

  lemma {:induction false} FlagsUnshared(bindings: seq<Binding>)
    requires Unshared(bindings)
    ensures Unshared(Flags(bindings))
  {
    if |bindings| > 0 {
      var n := |bindings| - 1;
      FlagsUnshared(bindings[..n]);
      FlagsAll(bindings[..n]);
      var flags := Flags(bindings[..n]);
      forall i | 0 <= i < |flags|
        ensures !SharesFlag(flags[i], bindings[n]) && !SharesShort(flags[i], bindings[n])
      {
        assert flags[i] in bindings[..n];
        var k :| 0 <= k < n && bindings[..n][k] == flags[i];
        assert bindings[k] == flags[i];
      }
    }
  }

  /** The positional bindings stand at 0, 1, 2, ... in order, and only the last collects. */
  predicate PositionsInOrder(positions: seq<Binding>) {
    forall i :: 0 <= i < |positions| ==>
      positions[i].form == Position(i) && (positions[i].repeated ==> i == |positions| - 1)
  }

  lemma {:induction false} OnlyPositionIssues(ordered: seq<Positional>, n: nat)
    requires n <= |ordered|
    ensures forall x :: x in PositionIssues(ordered, n) ==> x.problem == PositionGap || x.problem == CollectsTooEarly
  {
    if n > 0 {
      OnlyPositionIssues(ordered, n - 1);
    }
  }

  /** Nothing is reported of the positions exactly when they run in order. */
  lemma PositionsExactly(ordered: seq<Positional>)
    ensures PositionIssues(ordered, |ordered|) == [] <==> PositionsInOrder(ordered)
  {
    var issues := PositionIssues(ordered, |ordered|);
    PositionIssuesHold(ordered, |ordered|);
    OnlyPositionIssues(ordered, |ordered|);
    CountAbsent(issues, PositionGap);
    CountAbsent(issues, CollectsTooEarly);
    if |issues| > 0 {
      assert issues[0] in issues;
    }
    if PositionsInOrder(ordered) {
      forall i | 0 <= i < |ordered| ensures ordered[i].form.position == i {
        assert ordered[i].form == Position(i);
      }
    }
  }

  /**
   * Nothing is reported exactly when every entry is sound on its own, no two bindings share a
   * flag, a short or a position, and the positions are 0 to n-1 in order, only the last of
   * them collecting.
   */
  lemma NoIssuesExactly(moduleDoc: seq<(string, Doc)>)
    ensures AllIssues(moduleDoc) == [] <==>
            && EntryIssuesOf(moduleDoc) == []
            && Unshared(Declared(moduleDoc))
            && PositionsInOrder(OrderedPositions(Declared(moduleDoc)))
  {
    var ordered := OrderedPositions(Declared(moduleDoc));
    RepeatsExactly(Declared(moduleDoc));
    PositionsExactly(ordered);
    assert |AllIssues(moduleDoc)| ==
           |EntryIssuesOf(moduleDoc)| + |RepeatIssues(Declared(moduleDoc))| + |PositionIssues(ordered, |ordered|)|;
  }

  /**
   * When nothing is reported, every token that can name a binding names at most one, the
   * runtime's own `--help` names none, and the positions are 0 to n-1 in order.
   */
  lemma Unambiguous(moduleDoc: seq<(string, Doc)>)
    requires AllIssues(moduleDoc) == []
    ensures
      var bindings := Returned(moduleDoc);
      var flags := Flags(Declared(moduleDoc));
      && (forall i, j :: 0 <= i < j < |bindings| ==> Spellings(bindings[i]) !! Spellings(bindings[j]))
      && (forall b :: b in bindings ==> "--" + HELP !in Spellings(b))
      && bindings[..|flags|] == flags
      && PositionsInOrder(bindings[|flags|..])
  {
    var bindings, flags := Returned(moduleDoc), Flags(Declared(moduleDoc));
    NoIssuesExactly(moduleDoc);
    NoBindingLostSilently(moduleDoc);
    DeclaredGrammatical(moduleDoc);
    FlagsUnshared(Declared(moduleDoc));
    assert bindings[|flags|..] == OrderedPositions(Declared(moduleDoc));
    forall i, j | 0 <= i < j < |bindings| ensures Spellings(bindings[i]) !! Spellings(bindings[j]) {
      assert bindings[i] in bindings && bindings[j] in bindings;
      if bindings[i].form.Flag? && bindings[j].form.Flag? {
        assert i < |flags| && j < |flags|;
        SpellingsDisjoint(bindings[i], bindings[j]);
      }
    }
    forall b | b in bindings ensures "--" + HELP !in Spellings(b) {
      HelpIsFree(b);
    }
  }
}
