/**
 * `canonicalJson`: the canonical printer, and a reader of the JSON grammar
 * (RFC 8259, sections 3 to 7, without insignificant whitespace) that inverts it.
 * Two callers compare printed strings instead of values; `CanonicalDecides` says
 * exactly which values they then treat as one.
 */
module CanonicalJson {
  import opened Prelude
  import opened JsonValue

  // Code units, by the character they encode.
  const QUOTE: Unit := 0x22
  const BACKSLASH: Unit := 0x5C
  const COMMA: Unit := 0x2C
  const COLON: Unit := 0x3A
  const OPEN_BRACKET: Unit := 0x5B
  const CLOSE_BRACKET: Unit := 0x5D
  const OPEN_BRACE: Unit := 0x7B
  const CLOSE_BRACE: Unit := 0x7D
  const MINUS: Unit := 0x2D
  const PLUS: Unit := 0x2B
  const DOT: Unit := 0x2E
  const LOWER_E: Unit := 0x65
  const UPPER_E: Unit := 0x45
  const LOWER_U: Unit := 0x75
  const ZERO: Unit := 0x30
  const NINE: Unit := 0x39

  const NULL: Text := [0x6E, 0x75, 0x6C, 0x6C]
  const TRUE: Text := [0x74, 0x72, 0x75, 0x65]
  const FALSE: Text := [0x66, 0x61, 0x6C, 0x73, 0x65]

  // --- JSON.stringify on a string -------------------------------------------------

  predicate HighSurrogate(u: Unit) { 0xD800 <= u < 0xDC00 }

  predicate LowSurrogate(u: Unit) { 0xDC00 <= u < 0xE000 }

  function HexDigit(n: int): Unit
    requires 0 <= n < 16
  {
    if n < 10 then ZERO + n as Unit else 0x61 + (n - 10) as Unit
  }

  function Hex(n: int): (r: Text)
    requires 0 <= n < 0x10000
    ensures |r| == 4
  {
    var high := n / 16;
    var higher := high / 16;
    [HexDigit(higher / 16), HexDigit(higher % 16), HexDigit(high % 16), HexDigit(n % 16)]
  }

  function UnicodeEscape(u: Unit): Text {
    [BACKSLASH, LOWER_U] + Hex(u as int)
  }

  /** One code unit that is not half of a surrogate pair. */
  function EscapeUnit(u: Unit): Text {
    if u == 0x08 then [BACKSLASH, 0x62]
    else if u == 0x09 then [BACKSLASH, 0x74]
    else if u == 0x0A then [BACKSLASH, 0x6E]
    else if u == 0x0C then [BACKSLASH, 0x66]
    else if u == 0x0D then [BACKSLASH, 0x72]
    else if u == QUOTE || u == BACKSLASH then [BACKSLASH, u]
    else if u < 0x20 || HighSurrogate(u) || LowSurrogate(u) then UnicodeEscape(u)
    else [u]
  }

  function Escape(s: Text): Text {
    if |s| == 0 then []
    else if HighSurrogate(s[0]) && |s| > 1 && LowSurrogate(s[1]) then [s[0], s[1]] + Escape(s[2..])
    else EscapeUnit(s[0]) + Escape(s[1..])
  }

  function Quote(s: Text): Text {
    [QUOTE] + Escape(s) + [QUOTE]
  }

  // --- Number::toString, radix 10 --------------------------------------------------

  function Units(digits: seq<Digit>): (r: Text)
    ensures |r| == |digits|
  {
    seq(|digits|, i requires 0 <= i < |digits| => ZERO + digits[i] as Unit)
  }

  function Zeros(n: nat): (r: seq<Digit>)
    ensures |r| == n
  {
    seq(n, _ => 0)
  }

  function DecimalDigits(n: nat): (r: seq<Digit>)
    ensures |r| > 0
  {
    if n < 10 then [n as Digit] else DecimalDigits(n / 10) + [(n % 10) as Digit]
  }

  function PrintMagnitude(digits: seq<Digit>, point: int): Text
    requires |digits| > 0
  {
    if |digits| <= point <= 21 then Units(digits + Zeros(point - |digits|))
    else if 0 < point <= 21 then Units(digits[..point]) + [DOT] + Units(digits[point..])
    else if -6 < point <= 0 then [ZERO, DOT] + Units(Zeros(-point) + digits)
    else
      var fraction := if |digits| == 1 then [] else [DOT] + Units(digits[1..]);
      var exponent :=
        if point < 0 then [MINUS] + Units(DecimalDigits(1 - point))
        else [PLUS] + Units(DecimalDigits(point - 1));
      Units(digits[..1]) + fraction + [LOWER_E] + exponent
  }

  function PrintNumber(n: Num): Text
    requires ShortestDecimal(n)
  {
    match n
    case NaN | Infinity(_) => NULL
    case Zero(_) => [ZERO]
    case Finite(negative, digits, point) => (if negative then [MINUS] else []) + PrintMagnitude(digits, point)
  }

  // --- canonicalJson ---------------------------------------------------------------

  function Join(parts: seq<Text>): Text {
    if |parts| == 0 then [] else if |parts| == 1 then parts[0] else parts[0] + [COMMA] + Join(parts[1..])
  }

  function JoinEntries(parts: seq<(Text, Text)>): Text {
    if |parts| == 0 then []
    else
      var first := Quote(parts[0].0) + [COLON] + parts[0].1;
      if |parts| == 1 then first else first + [COMMA] + JoinEntries(parts[1..])
  }

  function PrintItems(items: seq<Value>): seq<Text>
    requires forall i :: 0 <= i < |items| ==> WellFormed(items[i])
    decreases items, 0
  {
    if |items| == 0 then [] else [Canonical(items[0])] + PrintItems(items[1..])
  }

  /** The printed entries an object keeps, in the order they were written. */
  function PrintEntries(entries: seq<(Text, Value)>): seq<(Text, Text)>
    requires forall i :: 0 <= i < |entries| ==> WellFormed(entries[i].1)
    decreases entries, 0
  {
    if |entries| == 0 then []
    else if entries[0].1.Undefined? then PrintEntries(entries[1..])
    else
      var e := entries[0];
      assert e.1 < e;
      [(e.0, Canonical(e.1))] + PrintEntries(entries[1..])
  }

  function Canonical(v: Value): Text
    requires WellFormed(v)
    decreases v, 1
  {
    match v
    case Undefined | Opaque | Null => NULL
    case Bool(b) => if b then TRUE else FALSE
    case Number(n) => PrintNumber(n)
    case Str(s) => Quote(s)
    case Arr(items) => [OPEN_BRACKET] + Join(PrintItems(items)) + [CLOSE_BRACKET]
    case Obj(entries) => [OPEN_BRACE] + JoinEntries(SortByKey(PrintEntries(entries))) + [CLOSE_BRACE]
  }

  // --- The reader: strings (RFC 8259, section 7) -------------------------------------

  function HexValue(u: Unit): Option<int> {
    if ZERO <= u <= NINE then Some((u - ZERO) as int)
    else if 0x61 <= u <= 0x66 then Some((u - 0x61) as int + 10)
    else if 0x41 <= u <= 0x46 then Some((u - 0x41) as int + 10)
    else None
  }

  function ReadHex(s: Text): (r: Option<Unit>)
    requires |s| == 4
  {
    var a, b, c, d := HexValue(s[0]), HexValue(s[1]), HexValue(s[2]), HexValue(s[3]);
    if a.None? || b.None? || c.None? || d.None? then None
    else
      var u := a.value * 4096 + b.value * 256 + c.value * 16 + d.value;
      if 0 <= u < 0x10000 then Some(u as Unit) else None
  }

  function ReadSimpleEscape(u: Unit): Option<Unit> {
    if u == QUOTE || u == BACKSLASH || u == 0x2F then Some(u)
    else if u == 0x62 then Some(0x08)
    else if u == 0x66 then Some(0x0C)
    else if u == 0x6E then Some(0x0A)
    else if u == 0x72 then Some(0x0D)
    else if u == 0x74 then Some(0x09)
    else None
  }

  /** The first code unit a string body writes, and what follows it. */
  function ReadUnit(s: Text): (r: Option<(Unit, Text)>)
    requires |s| > 0
    ensures r.Some? ==> |r.value.1| < |s|
  {
    if s[0] < 0x20 || s[0] == QUOTE then None
    else if s[0] != BACKSLASH then Some((s[0], s[1..]))
    else if |s| < 2 then None
    else if s[1] == LOWER_U then
      if |s| < 6 then None
      else
        var u := ReadHex(s[2..6]);
        if u.None? then None else Some((u.value, s[6..]))
    else
      var u := ReadSimpleEscape(s[1]);
      if u.None? then None else Some((u.value, s[2..]))
  }

  function ReadBody(s: Text): (r: Option<(Text, Text)>)
    ensures r.Some? ==> |r.value.1| < |s|
    decreases |s|
  {
    if |s| == 0 then None
    else if s[0] == QUOTE then Some(([], s[1..]))
    else
      var first := ReadUnit(s);
      if first.None? then None
      else
        var others := ReadBody(first.value.1);
        if others.None? then None else Some(([first.value.0] + others.value.0, others.value.1))
  }

  // --- The reader: numbers (RFC 8259, section 6) ---------------------------------------

  predicate IsDigit(u: Unit) { ZERO <= u <= NINE }

  function TakeDigits(s: Text): (r: (seq<Digit>, Text))
    ensures |r.0| + |r.1| == |s|
  {
    if |s| == 0 || !IsDigit(s[0]) then ([], s)
    else
      var others := TakeDigits(s[1..]);
      ([(s[0] - ZERO) as Digit] + others.0, others.1)
  }

  function FromDigits(digits: seq<Digit>): nat {
    if |digits| == 0 then 0 else FromDigits(digits[..|digits| - 1]) * 10 + digits[|digits| - 1] as int
  }

  /** The number whose digits are `digits` with the point after the first `point`. */
  function Trimmed(negative: bool, digits: seq<Digit>, point: int): (r: Num)
    ensures ShortestDecimal(r)
    decreases |digits|
  {
    if |digits| == 0 then Zero(negative)
    else if digits[0] == 0 then Trimmed(negative, digits[1..], point - 1)
    else if digits[|digits| - 1] == 0 then Trimmed(negative, digits[..|digits| - 1], point)
    else Finite(negative, digits, point)
  }

  /** An optional fraction: its digits, and what follows. */
  function ReadFraction(s: Text): (r: Option<(seq<Digit>, Text)>)
    ensures r.Some? ==> |r.value.1| <= |s|
  {
    if |s| == 0 || s[0] != DOT then Some(([], s))
    else
      var taken := TakeDigits(s[1..]);
      if |taken.0| == 0 then None else Some(taken)
  }

  /** An optional exponent: its value, and what follows. */
  function ReadExponent(s: Text): (r: Option<(int, Text)>)
    ensures r.Some? ==> |r.value.1| <= |s|
  {
    if |s| == 0 || (s[0] != LOWER_E && s[0] != UPPER_E) then Some((0, s))
    else
      var signed := |s| > 1 && (s[1] == MINUS || s[1] == PLUS);
      var taken := TakeDigits(s[if signed then 2 else 1..]);
      if |taken.0| == 0 then None
      else
        var n: int := FromDigits(taken.0);
        Some((if signed && s[1] == MINUS then -n else n, taken.1))
  }

  function ReadMagnitude(negative: bool, s: Text): (r: Option<(Num, Text)>)
    ensures r.Some? ==> |r.value.1| < |s|
  {
    var whole := TakeDigits(s);
    if |whole.0| == 0 || (|whole.0| > 1 && whole.0[0] == 0) then None
    else
      var fraction := ReadFraction(whole.1);
      if fraction.None? then None
      else
        var exponent := ReadExponent(fraction.value.1);
        if exponent.None? then None
        else
          Some((Trimmed(negative, whole.0 + fraction.value.0, |whole.0| + exponent.value.0), exponent.value.1))
  }

  function ReadNumber(s: Text): (r: Option<(Num, Text)>)
    ensures r.Some? ==> |r.value.1| < |s|
  {
    if |s| > 0 && s[0] == MINUS then ReadMagnitude(true, s[1..]) else ReadMagnitude(false, s)
  }

  // --- The reader: values (RFC 8259, sections 3 to 5) -----------------------------------

  function Literal(s: Text, word: Text, v: Value): (r: Option<(Value, Text)>)
    requires |word| > 0
    ensures r.Some? ==> |r.value.1| < |s|
  {
    if word <= s then Some((v, s[|word|..])) else None
  }

  function ReadValue(s: Text): (r: Option<(Value, Text)>)
    ensures r.Some? ==> |r.value.1| < |s|
    decreases |s|, 0
  {
    if |s| == 0 then None
    else if s[0] == NULL[0] then Literal(s, NULL, Null)
    else if s[0] == TRUE[0] then Literal(s, TRUE, Bool(true))
    else if s[0] == FALSE[0] then Literal(s, FALSE, Bool(false))
    else if s[0] == QUOTE then
      var body := ReadBody(s[1..]);
      if body.None? then None else Some((Str(body.value.0), body.value.1))
    else if s[0] == OPEN_BRACKET then
      if |s| > 1 && s[1] == CLOSE_BRACKET then Some((Arr([]), s[2..]))
      else
        var items := ReadItems(s[1..]);
        if items.None? then None else Some((Arr(items.value.0), items.value.1))
    else if s[0] == OPEN_BRACE then
      if |s| > 1 && s[1] == CLOSE_BRACE then Some((Obj([]), s[2..]))
      else
        var entries := ReadEntries(s[1..]);
        if entries.None? then None else Some((Obj(entries.value.0), entries.value.1))
    else
      var n := ReadNumber(s);
      if n.None? then None else Some((Number(n.value.0), n.value.1))
  }

  function ReadItems(s: Text): (r: Option<(seq<Value>, Text)>)
    ensures r.Some? ==> |r.value.1| < |s|
    decreases |s|, 1
  {
    var first := ReadValue(s);
    if first.None? || |first.value.1| == 0 then None
    else
      var after := first.value.1;
      if after[0] == CLOSE_BRACKET then Some(([first.value.0], after[1..]))
      else if after[0] != COMMA then None
      else
        var others := ReadItems(after[1..]);
        if others.None? then None else Some(([first.value.0] + others.value.0, others.value.1))
  }

  function ReadEntries(s: Text): (r: Option<(seq<(Text, Value)>, Text)>)
    ensures r.Some? ==> |r.value.1| < |s|
    decreases |s|, 1
  {
    if |s| == 0 || s[0] != QUOTE then None
    else
      var key := ReadBody(s[1..]);
      if key.None? || |key.value.1| == 0 || key.value.1[0] != COLON then None
      else
        var first := ReadValue(key.value.1[1..]);
        if first.None? || |first.value.1| == 0 then None
        else
          var entry, after := (key.value.0, first.value.0), first.value.1;
          if after[0] == CLOSE_BRACE then Some(([entry], after[1..]))
          else if after[0] != COMMA then None
          else
            var others := ReadEntries(after[1..]);
            if others.None? then None else Some(([entry] + others.value.0, others.value.1))
  }

  // --- Printing a value is printing its normal form --------------------------------------

  function PlainItems(items: seq<Value>): seq<Text>
    requires forall i :: 0 <= i < |items| ==> WellFormed(items[i])
    decreases items, 0
  {
    if |items| == 0 then [] else [Plain(items[0])] + PlainItems(items[1..])
  }

  function PlainEntries(entries: seq<(Text, Value)>): seq<(Text, Text)>
    requires forall i :: 0 <= i < |entries| ==> WellFormed(entries[i].1)
    decreases entries, 0
  {
    if |entries| == 0 then []
    else
      var e := entries[0];
      assert e.1 < e;
      [(e.0, Plain(e.1))] + PlainEntries(entries[1..])
  }

  /** The printer without its normalisation: no entry dropped, no key moved. */
  function Plain(v: Value): Text
    requires WellFormed(v)
    decreases v, 1
  {
    match v
    case Undefined | Opaque | Null => NULL
    case Bool(b) => if b then TRUE else FALSE
    case Number(n) => PrintNumber(n)
    case Str(s) => Quote(s)
    case Arr(items) => [OPEN_BRACKET] + Join(PlainItems(items)) + [CLOSE_BRACKET]
    case Obj(entries) => [OPEN_BRACE] + JoinEntries(PlainEntries(entries)) + [CLOSE_BRACE]
  }

  /** No value that `JSON.stringify` reads as `null` or `0` is left. */
  predicate Normalised(v: Value) {
    match v
    case Undefined | Opaque => false
    case Number(n) => ShortestDecimal(n) && (n == Zero(false) || n.Finite?)
    case Arr(items) => forall i :: 0 <= i < |items| ==> Normalised(items[i])
    case Obj(entries) => forall i :: 0 <= i < |entries| ==> Normalised(entries[i].1)
    case _ => true
  }

  ghost predicate PrintsEntry(p: (Text, Text), e: (Text, Value)) {
    p.0 == e.0 && WellFormed(e.1) && Normalised(e.1) && p.1 == Plain(e.1)
  }

  /** Entry by entry, `printed` is the plain printing of `entries`. */
  ghost predicate Prints(printed: seq<(Text, Text)>, entries: seq<(Text, Value)>) {
    && |printed| == |entries|
    && forall i :: 0 <= i < |entries| ==> PrintsEntry(printed[i], entries[i])
  }

  lemma {:induction false} InsertPrints(p: (Text, Text), e: (Text, Value), printed: seq<(Text, Text)>,
          entries: seq<(Text, Value)>)
    requires Prints(printed, entries) && PrintsEntry(p, e)
    ensures Prints(Insert(p, printed), Insert(e, entries))
  {
    if |entries| > 0 {
      assert PrintsEntry(printed[0], entries[0]);
      if Less(entries[0].0, e.0) {
        InsertPrints(p, e, printed[1..], entries[1..]);
      }
    }
  }

  lemma {:induction false} SortPrints(printed: seq<(Text, Text)>, entries: seq<(Text, Value)>)
    requires Prints(printed, entries)
    ensures Prints(SortByKey(printed), SortByKey(entries))
  {
    if |entries| > 0 {
      SortPrints(printed[1..], entries[1..]);
      InsertPrints(printed[0], entries[0], SortByKey(printed[1..]), SortByKey(entries[1..]));
    }
  }

  lemma {:induction false} PrintsPlain(printed: seq<(Text, Text)>, entries: seq<(Text, Value)>)
    requires Prints(printed, entries)
    ensures printed == PlainEntries(entries)
  {
    if |entries| > 0 {
      PrintsPlain(printed[1..], entries[1..]);
      assert printed == [printed[0]] + printed[1..];
    }
  }

  lemma {:induction false} PrintNormalItems(items: seq<Value>)
    requires forall i :: 0 <= i < |items| ==> WellFormed(items[i])
    ensures forall i :: 0 <= i < |items| ==> WellFormed(NormalItems(items)[i]) && Normalised(NormalItems(items)[i])
    ensures PrintItems(items) == PlainItems(NormalItems(items))
    decreases items, 0
  {
    if |items| > 0 {
      PrintNormal(items[0]);
      PrintNormalItems(items[1..]);
      assert NormalItems(items)[1..] == NormalItems(items[1..]);
    }
  }

  lemma {:induction false} PrintNormalEntries(entries: seq<(Text, Value)>)
    requires forall i :: 0 <= i < |entries| ==> WellFormed(entries[i].1)
    ensures Prints(PrintEntries(entries), NormalEntries(entries))
    decreases entries, 0
  {
    if |entries| > 0 {
      var e := entries[0];
      assert e.1 < e;
      PrintNormal(e.1);
      PrintNormalEntries(entries[1..]);
    }
  }

  /** Normalising first and printing plainly afterwards prints the same text. */
  lemma {:induction false} PrintNormal(v: Value)
    requires WellFormed(v)
    ensures WellFormed(Normal(v)) && Normalised(Normal(v))
    ensures Canonical(v) == Plain(Normal(v))
    decreases v, 1
  {
    match v
    case Arr(items) => PrintNormalItems(items);
    case Obj(entries) =>
      PrintNormalEntries(entries);
      SortPrints(PrintEntries(entries), NormalEntries(entries));
      PrintsPlain(SortByKey(PrintEntries(entries)), SortByKey(NormalEntries(entries)));
      NormalEntriesMap(entries);
      SortIsSorted(NormalEntries(entries));
      SortedDistinct(SortByKey(NormalEntries(entries)));
    case _ =>
  }

  // --- Reading back: strings ---------------------------------------------------------------

  lemma ReadEscapedUnit(u: Unit, rest: Text)
    ensures ReadUnit(EscapeUnit(u) + rest) == Some((u, rest))
    ensures EscapeUnit(u)[0] != QUOTE
  {
    var s := EscapeUnit(u) + rest;
    if |EscapeUnit(u)| == 6 {
      assert s[2..6] == Hex(u as int);
      HexRoundTrip(u as int);
      assert s[6..] == rest;
    } else if |EscapeUnit(u)| == 2 {
      assert s[2..] == rest;
    } else {
      assert s[1..] == rest;
    }
  }

  lemma HexDigitValue(n: int)
    requires 0 <= n < 16
    ensures HexValue(HexDigit(n)) == Some(n)
  {
  }

  lemma HexRoundTrip(n: int)
    requires 0 <= n < 0x10000
    ensures ReadHex(Hex(n)) == Some(n as Unit)
  {
    var high := n / 16;
    var higher := high / 16;
    HexDigitValue(higher / 16);
    HexDigitValue(higher % 16);
    HexDigitValue(high % 16);
    HexDigitValue(n % 16);
  }

  lemma ReadBodyStep(u: Unit, written: Text, others: Text, s: Text, rest: Text)
    requires |written| > 0 && written[0] != QUOTE
    requires ReadUnit(written + others) == Some((u, others))
    requires ReadBody(others) == Some((s, rest))
    ensures ReadBody(written + others) == Some(([u] + s, rest))
  {
  }

  lemma ReadBodyPair(high: Unit, low: Unit, others: Text, s: Text, rest: Text)
    requires HighSurrogate(high) && LowSurrogate(low)
    requires ReadBody(others) == Some((s, rest))
    ensures ReadBody([high, low] + others) == Some(([high, low] + s, rest))
  {
    var tail := [low] + others;
    assert tail[1..] == others;
    ReadBodyStep(low, [low], others, s, rest);
    assert ([high] + tail)[1..] == tail;
    ReadBodyStep(high, [high], tail, [low] + s, rest);
    assert [high] + tail == [high, low] + others;
    assert [high] + ([low] + s) == [high, low] + s;
  }

  lemma {:induction false} ReadEscaped(s: Text, rest: Text)
    ensures ReadBody(Escape(s) + ([QUOTE] + rest)) == Some((s, rest))
    decreases |s|
  {
    var end := [QUOTE] + rest;
    if |s| == 0 {
      assert Escape(s) + end == end;
      assert end[1..] == rest;
    } else if HighSurrogate(s[0]) && |s| > 1 && LowSurrogate(s[1]) {
      ReadEscaped(s[2..], rest);
      ReadBodyPair(s[0], s[1], Escape(s[2..]) + end, s[2..], rest);
      Regroup3([s[0], s[1]], Escape(s[2..]), end);
      assert [s[0], s[1]] + s[2..] == s;
    } else {
      ReadEscaped(s[1..], rest);
      ReadEscapedUnit(s[0], Escape(s[1..]) + end);
      ReadBodyStep(s[0], EscapeUnit(s[0]), Escape(s[1..]) + end, s[1..], rest);
      Regroup3(EscapeUnit(s[0]), Escape(s[1..]), end);
      assert [s[0]] + s[1..] == s;
    }
  }

  // --- Reading back: numbers ---------------------------------------------------------------

  predicate NoDigitAhead(rest: Text) {
    |rest| == 0 || !IsDigit(rest[0])
  }

  lemma {:induction false} TakeUnits(digits: seq<Digit>, rest: Text)
    requires NoDigitAhead(rest)
    ensures TakeDigits(Units(digits) + rest) == (digits, rest)
  {
    var s := Units(digits) + rest;
    if |digits| > 0 {
      TakeUnits(digits[1..], rest);
      assert s[1..] == Units(digits[1..]) + rest;
      assert [digits[0]] + digits[1..] == digits;
    } else {
      assert s == rest;
    }
  }

  lemma {:induction false} DecimalRoundTrip(n: nat)
    ensures FromDigits(DecimalDigits(n)) == n
  {
    var digits := DecimalDigits(n);
    if n >= 10 {
      DecimalRoundTrip(n / 10);
      assert digits[..|digits| - 1] == DecimalDigits(n / 10);
    } else {
      assert digits[..0] == [];
    }
  }

  lemma ZerosHead(n: nat)
    requires n > 0
    ensures Zeros(n) == [0] + Zeros(n - 1) && Zeros(n) == Zeros(n - 1) + [0]
  {
  }

  lemma TrimFirst(negative: bool, digits: seq<Digit>, point: int)
    ensures Trimmed(negative, [0] + digits, point) == Trimmed(negative, digits, point - 1)
  {
    assert ([0] + digits)[1..] == digits;
  }

  lemma TrimLast(negative: bool, digits: seq<Digit>, point: int)
    requires |digits| > 0 && digits[0] != 0 && digits[|digits| - 1] == 0
    ensures Trimmed(negative, digits, point) == Trimmed(negative, digits[..|digits| - 1], point)
  {
  }

  lemma {:induction false} TrimTrailing(negative: bool, digits: seq<Digit>, trail: nat, point: int)
    requires ShortestDecimal(Finite(negative, digits, point))
    ensures Trimmed(negative, digits + Zeros(trail), point) == Finite(negative, digits, point)
  {
    var all := digits + Zeros(trail);
    if trail > 0 {
      TrimTrailing(negative, digits, trail - 1, point);
      TrimLast(negative, all, point);
      assert all[..|all| - 1] == digits + Zeros(trail - 1);
    } else {
      TrimNothing(negative, digits, point);
      assert all == digits;
    }
  }

  lemma {:induction false} TrimPadding(negative: bool, lead: nat, digits: seq<Digit>, trail: nat, point: int)
    requires ShortestDecimal(Finite(negative, digits, point))
    ensures Trimmed(negative, Zeros(lead) + digits + Zeros(trail), point) == Finite(negative, digits, point - lead)
  {
    Regroup3(Zeros(lead), digits, Zeros(trail));
    if lead > 0 {
      ZerosHead(lead);
      Regroup3([0], Zeros(lead - 1), digits + Zeros(trail));
      Regroup3(Zeros(lead - 1), digits, Zeros(trail));
      TrimFirst(negative, Zeros(lead - 1) + digits + Zeros(trail), point);
      TrimPadding(negative, lead - 1, digits, trail, point - 1);
    } else {
      assert Zeros(0) + (digits + Zeros(trail)) == digits + Zeros(trail);
      TrimTrailing(negative, digits, trail, point);
    }
  }

  /** What may follow a value inside a document: its end, `,`, `]` or `}`. */
  predicate Delimited(rest: Text) {
    |rest| == 0 || rest[0] == COMMA || rest[0] == CLOSE_BRACKET || rest[0] == CLOSE_BRACE
  }

  function ExponentText(point: int): Text
    requires point < 0 || point >= 1
  {
    [LOWER_E] + (if point < 0 then [MINUS] + Units(DecimalDigits(1 - point))
        else [PLUS] + Units(DecimalDigits(point - 1)))
  }

  lemma ReadExponentText(point: int, rest: Text)
    requires point < 0 || point >= 1
    requires Delimited(rest)
    ensures ReadExponent(ExponentText(point) + rest) == Some((point - 1, rest))
  {
    var s := ExponentText(point) + rest;
    var digits := DecimalDigits(if point < 0 then 1 - point else point - 1);
    assert s[2..] == Units(digits) + rest;
    TakeUnits(digits, rest);
    DecimalRoundTrip(if point < 0 then 1 - point else point - 1);
  }

  lemma TrimNothing(negative: bool, digits: seq<Digit>, point: int)
    requires ShortestDecimal(Finite(negative, digits, point))
    ensures Trimmed(negative, digits, point) == Finite(negative, digits, point)
  {
  }

  function FractionText(part: seq<Digit>): Text {
    if |part| == 0 then [] else [DOT] + Units(part)
  }

  lemma ReadFractionText(part: seq<Digit>, tail: Text)
    requires NoDigitAhead(tail)
    requires |tail| > 0 ==> tail[0] != DOT
    ensures ReadFraction(FractionText(part) + tail) == Some((part, tail))
    ensures NoDigitAhead(FractionText(part) + tail)
  {
    if |part| > 0 {
      Regroup3([DOT], Units(part), tail);
      assert ([DOT] + (Units(part) + tail))[1..] == Units(part) + tail;
      TakeUnits(part, tail);
    } else {
      assert FractionText(part) + tail == tail;
    }
  }

  /** A reading in parts: `whole` digits, the fraction `part`, and an exponent text. */
  lemma ReadParts(negative: bool, whole: seq<Digit>, part: seq<Digit>, exponent: Text, value: int, rest: Text)
    requires |whole| > 0 && (|whole| > 1 ==> whole[0] != 0)
    requires NoDigitAhead(exponent + rest)
    requires |exponent + rest| > 0 ==> (exponent + rest)[0] != DOT
    requires ReadExponent(exponent + rest) == Some((value, rest))
    ensures ReadMagnitude(negative, Units(whole) + FractionText(part) + exponent + rest)
         == Some((Trimmed(negative, whole + part, |whole| + value), rest))
  {
    var tail := exponent + rest;
    Regroup4(Units(whole), FractionText(part), exponent, rest);
    ReadFractionText(part, tail);
    TakeUnits(whole, FractionText(part) + tail);
    assert TakeDigits(Units(whole) + (FractionText(part) + tail)) == (whole, FractionText(part) + tail);
  }

  lemma ReadPlainParts(negative: bool, whole: seq<Digit>, part: seq<Digit>, rest: Text)
    requires |whole| > 0 && (|whole| > 1 ==> whole[0] != 0)
    requires Delimited(rest)
    ensures ReadMagnitude(negative, Units(whole) + FractionText(part) + rest)
         == Some((Trimmed(negative, whole + part, |whole|), rest))
  {
    assert [] + rest == rest;
    ReadParts(negative, whole, part, [], 0, rest);
    assert Units(whole) + FractionText(part) + [] == Units(whole) + FractionText(part);
  }

  lemma ReadWhole(negative: bool, digits: seq<Digit>, point: int, rest: Text)
    requires ShortestDecimal(Finite(negative, digits, point))
    requires Delimited(rest)
    requires |digits| <= point <= 21
    ensures ReadMagnitude(negative, PrintMagnitude(digits, point) + rest) ==
        Some((Finite(negative, digits, point), rest))
  {
    var whole := digits + Zeros(point - |digits|);
    ReadPlainParts(negative, whole, [], rest);
    AddNothing(Units(whole));
    AddNothing(whole);
    TrimTrailing(negative, digits, point - |digits|, point);
  }

  lemma ReadMixed(negative: bool, digits: seq<Digit>, point: int, rest: Text)
    requires ShortestDecimal(Finite(negative, digits, point))
    requires Delimited(rest)
    requires 0 < point < |digits| && point <= 21
    ensures ReadMagnitude(negative, PrintMagnitude(digits, point) + rest) ==
        Some((Finite(negative, digits, point), rest))
  {
    ReadPlainParts(negative, digits[..point], digits[point..], rest);
    Regroup3(Units(digits[..point]), [DOT], Units(digits[point..]));
    assert digits[..point] + digits[point..] == digits;
    TrimNothing(negative, digits, point);
  }

  lemma ReadSmall(negative: bool, digits: seq<Digit>, point: int, rest: Text)
    requires ShortestDecimal(Finite(negative, digits, point))
    requires Delimited(rest)
    requires -6 < point <= 0
    ensures ReadMagnitude(negative, PrintMagnitude(digits, point) + rest) ==
        Some((Finite(negative, digits, point), rest))
  {
    var part := Zeros(-point) + digits;
    ReadPlainParts(negative, [0], part, rest);
    assert Units([0]) + FractionText(part) == [ZERO, DOT] + Units(part);
    assert [0] + part == Zeros(1 - point) + digits + Zeros(0);
    TrimPadding(negative, 1 - point, digits, 0, 1);
  }

  lemma ReadScientific(negative: bool, digits: seq<Digit>, point: int, rest: Text)
    requires ShortestDecimal(Finite(negative, digits, point))
    requires Delimited(rest)
    requires point <= -6 || point > 21
    ensures ReadMagnitude(negative, PrintMagnitude(digits, point) + rest) ==
        Some((Finite(negative, digits, point), rest))
  {
    ReadExponentText(point, rest);
    ReadParts(negative, digits[..1], digits[1..], ExponentText(point), point - 1, rest);
    Regroup3(Units(digits[..1]) + FractionText(digits[1..]), [LOWER_E], ExponentText(point)[1..]);
    assert digits[..1] + digits[1..] == digits;
    TrimNothing(negative, digits, point);
  }

  lemma ReadPrintedMagnitude(negative: bool, digits: seq<Digit>, point: int, rest: Text)
    requires ShortestDecimal(Finite(negative, digits, point))
    requires Delimited(rest)
    ensures ReadMagnitude(negative, PrintMagnitude(digits, point) + rest) ==
        Some((Finite(negative, digits, point), rest))
  {
    if |digits| <= point <= 21 {
      ReadWhole(negative, digits, point, rest);
    } else if 0 < point <= 21 {
      ReadMixed(negative, digits, point, rest);
    } else if -6 < point <= 0 {
      ReadSmall(negative, digits, point, rest);
    } else {
      ReadScientific(negative, digits, point, rest);
    }
  }

  lemma MagnitudeHead(digits: seq<Digit>, point: int)
    requires |digits| > 0
    ensures |PrintMagnitude(digits, point)| > 0 && IsDigit(PrintMagnitude(digits, point)[0])
  {
  }

  lemma ReadZero(rest: Text)
    requires Delimited(rest)
    ensures ReadNumber([ZERO] + rest) == Some((Zero(false), rest))
  {
    ReadPlainParts(false, [0], [], rest);
    assert Units([0]) == [ZERO] && [ZERO] + FractionText([]) == [ZERO];
    assert [0] + [] == [0] && [0][1..] == [];
    assert Trimmed(false, [0], 1) == Zero(false);
  }

  lemma ReadSigned(negative: bool, magnitude: Text, rest: Text, read: (Num, Text))
    requires |magnitude| > 0 && magnitude[0] != MINUS
    requires ReadMagnitude(negative, magnitude + rest) == Some(read)
    ensures ReadNumber((if negative then [MINUS] else []) + magnitude + rest) == Some(read)
  {
    if negative {
      Regroup3([MINUS], magnitude, rest);
      assert ([MINUS] + (magnitude + rest))[1..] == magnitude + rest;
    } else {
      assert [] + magnitude == magnitude;
    }
  }

  lemma ReadPrintedNumber(n: Num, rest: Text)
    requires Normalised(Number(n)) && Delimited(rest)
    ensures ReadNumber(PrintNumber(n) + rest) == Some((n, rest))
  {
    if n.Zero? {
      ReadZero(rest);
    } else {
      MagnitudeHead(n.digits, n.point);
      ReadPrintedMagnitude(n.negative, n.digits, n.point, rest);
      ReadSigned(n.negative, PrintMagnitude(n.digits, n.point), rest, (n, rest));
    }
  }

  // --- Reading back: values ------------------------------------------------------------------

  lemma PlainHead(v: Value)
    requires WellFormed(v) && Normalised(v)
    ensures |Plain(v)| > 0 && Plain(v)[0] != CLOSE_BRACKET
    ensures v.Number? ==> IsDigit(Plain(v)[0]) || Plain(v)[0] == MINUS
  {
    if v.Number? && v.n.Finite? {
      MagnitudeHead(v.n.digits, v.n.point);
    }
  }

  lemma LastItem(v: Value, written: Text, rest: Text)
    requires ReadValue(written + ([CLOSE_BRACKET] + rest)) == Some((v, [CLOSE_BRACKET] + rest))
    ensures ReadItems(written + ([CLOSE_BRACKET] + rest)) == Some(([v], rest))
  {
    assert ([CLOSE_BRACKET] + rest)[1..] == rest;
  }

  lemma NextItem(v: Value, written: Text, tail: Text, items: seq<Value>, rest: Text)
    requires ReadValue(written + ([COMMA] + tail)) == Some((v, [COMMA] + tail))
    requires ReadItems(tail) == Some((items, rest))
    ensures ReadItems(written + ([COMMA] + tail)) == Some(([v] + items, rest))
  {
    assert ([COMMA] + tail)[1..] == tail;
  }

  lemma {:induction false} ReadPlainItems(items: seq<Value>, rest: Text)
    requires |items| > 0
    requires forall i :: 0 <= i < |items| ==> WellFormed(items[i]) && Normalised(items[i])
    ensures ReadItems(Join(PlainItems(items)) + ([CLOSE_BRACKET] + rest)) == Some((items, rest))
    decreases items, 0
  {
    var first := Plain(items[0]);
    var end := [CLOSE_BRACKET] + rest;
    var others := PlainItems(items[1..]);
    assert PlainItems(items) == [first] + others;
    assert [items[0]] + items[1..] == items;
    if |items| == 1 {
      assert Join(PlainItems(items)) == first;
      ReadPlain(items[0], end);
      LastItem(items[0], first, rest);
      assert items == [items[0]];
    } else {
      var tail := Join(others) + end;
      assert |PlainItems(items)| > 1 && PlainItems(items)[1..] == others;
      Regroup4(first, [COMMA], Join(others), end);
      ReadPlain(items[0], [COMMA] + tail);
      ReadPlainItems(items[1..], rest);
      NextItem(items[0], first, tail, items[1..], rest);
    }
  }

  lemma EntryText(key: Text, value: Text, others: Text, end: Text)
    ensures
      (Quote(key) + [COLON] + value) + end == [QUOTE] + (Escape(key) + ([QUOTE] + ([COLON] + (value + end))))
    ensures
      ((Quote(key) + [COLON] + value) + [COMMA] + others) + end
        == [QUOTE] + (Escape(key) + ([QUOTE] + ([COLON] + (value + ([COMMA] + (others + end))))))
  {
    var first := Quote(key) + [COLON] + value;
    forall tail: Text
      ensures first + tail == [QUOTE] + (Escape(key) + ([QUOTE] + ([COLON] + (value + tail))))
    {
      Regroup4(Quote(key), [COLON], value, tail);
      Regroup4([QUOTE], Escape(key), [QUOTE], [COLON] + (value + tail));
    }
    Regroup4(first, [COMMA], others, end);
  }

  /** What `ReadEntries` reads of one entry, up to the delimiter after it. */
  ghost predicate EntryRead(s: Text, e: (Text, Value), after: Text) {
    && |s| > 0 && s[0] == QUOTE
    && var key := ReadBody(s[1..]);
    && key.Some? && key.value.0 == e.0 && |key.value.1| > 0 && key.value.1[0] == COLON
    && ReadValue(key.value.1[1..]) == Some((e.1, after))
  }

  lemma LastEntry(s: Text, e: (Text, Value), rest: Text)
    requires EntryRead(s, e, [CLOSE_BRACE] + rest)
    ensures ReadEntries(s) == Some(([e], rest))
  {
    assert ([CLOSE_BRACE] + rest)[1..] == rest;
  }

  lemma NextEntry(s: Text, e: (Text, Value), tail: Text, entries: seq<(Text, Value)>, rest: Text)
    requires EntryRead(s, e, [COMMA] + tail)
    requires ReadEntries(tail) == Some((entries, rest))
    ensures ReadEntries(s) == Some(([e] + entries, rest))
  {
    assert ([COMMA] + tail)[1..] == tail;
  }

  lemma {:induction false} ReadPlainEntry(e: (Text, Value), after: Text)
    requires WellFormed(e.1) && Normalised(e.1)
    requires Delimited(after)
    ensures EntryRead([QUOTE] + (Escape(e.0) + ([QUOTE] + ([COLON] + (Plain(e.1) + after)))), e, after)
    decreases e, 0
  {
    assert e.1 < e;
    var value := Plain(e.1) + after;
    var body := Escape(e.0) + ([QUOTE] + ([COLON] + value));
    assert ([QUOTE] + body)[1..] == body;
    ReadEscaped(e.0, [COLON] + value);
    assert ([COLON] + value)[1..] == value;
    ReadPlain(e.1, after);
  }

  lemma {:induction false} ReadOnlyEntry(e: (Text, Value), rest: Text)
    requires WellFormed(e.1) && Normalised(e.1)
    ensures ReadEntries((Quote(e.0) + [COLON] + Plain(e.1)) + ([CLOSE_BRACE] + rest)) == Some(([e], rest))
    decreases e, 1
  {
    var end := [CLOSE_BRACE] + rest;
    EntryText(e.0, Plain(e.1), [], end);
    ReadPlainEntry(e, end);
    LastEntry((Quote(e.0) + [COLON] + Plain(e.1)) + end, e, rest);
  }

  lemma {:induction false} ReadFirstEntry(e: (Text, Value), others: Text, entries: seq<(Text, Value)>, rest: Text)
    requires WellFormed(e.1) && Normalised(e.1)
    requires ReadEntries(others + ([CLOSE_BRACE] + rest)) == Some((entries, rest))
    ensures ReadEntries(((Quote(e.0) + [COLON] + Plain(e.1)) + [COMMA] + others) + ([CLOSE_BRACE] + rest))
         == Some(([e] + entries, rest))
    decreases e, 1
  {
    var end := [CLOSE_BRACE] + rest;
    EntryText(e.0, Plain(e.1), others, end);
    ReadPlainEntry(e, [COMMA] + (others + end));
    NextEntry(((Quote(e.0) + [COLON] + Plain(e.1)) + [COMMA] + others) + end, e, others + end, entries, rest);
  }

  lemma {:induction false} ReadPlainEntries(entries: seq<(Text, Value)>, rest: Text)
    requires |entries| > 0
    requires forall i :: 0 <= i < |entries| ==> WellFormed(entries[i].1) && Normalised(entries[i].1)
    ensures ReadEntries(JoinEntries(PlainEntries(entries)) + ([CLOSE_BRACE] + rest)) == Some((entries, rest))
    decreases entries, 0
  {
    var e := entries[0];
    var printed := PlainEntries(entries);
    assert printed == [(e.0, Plain(e.1))] + PlainEntries(entries[1..]);
    assert printed[1..] == PlainEntries(entries[1..]);
    if |entries| == 1 {
      ReadOnlyEntry(e, rest);
      assert entries == [e];
    } else {
      ReadPlainEntries(entries[1..], rest);
      ReadFirstEntry(e, JoinEntries(PlainEntries(entries[1..])), entries[1..], rest);
      assert entries == [e] + entries[1..];
    }
  }

  lemma ReadWord(word: Text, v: Value, rest: Text)
    requires (word == NULL && v == Null) || (word == TRUE && v == Bool(true)) || (word == FALSE && v == Bool(false))
    ensures ReadValue(word + rest) == Some((v, rest))
  {
    var s := word + rest;
    assert word <= s && s[|word|..] == rest;
  }

  lemma ReadQuoted(t: Text, rest: Text)
    ensures ReadValue(Quote(t) + rest) == Some((Str(t), rest))
  {
    var s := Quote(t) + rest;
    assert s[1..] == Escape(t) + ([QUOTE] + rest);
    ReadEscaped(t, rest);
  }

  lemma ReadBracketed(inside: Text, items: seq<Value>, rest: Text)
    requires if |items| == 0 then inside == [] else |inside| > 0 && inside[0] != CLOSE_BRACKET
    requires |items| > 0 ==> ReadItems(inside + ([CLOSE_BRACKET] + rest)) == Some((items, rest))
    ensures ReadValue([OPEN_BRACKET] + inside + [CLOSE_BRACKET] + rest) == Some((Arr(items), rest))
  {
    var tail := inside + ([CLOSE_BRACKET] + rest);
    Regroup4([OPEN_BRACKET], inside, [CLOSE_BRACKET], rest);
    var s := [OPEN_BRACKET] + tail;
    assert s[1..] == tail;
    assert |items| == 0 ==> s[2..] == rest;
  }

  lemma ReadBraced(inside: Text, entries: seq<(Text, Value)>, rest: Text)
    requires if |entries| == 0 then inside == [] else |inside| > 0 && inside[0] != CLOSE_BRACE
    requires |entries| > 0 ==> ReadEntries(inside + ([CLOSE_BRACE] + rest)) == Some((entries, rest))
    ensures ReadValue([OPEN_BRACE] + inside + [CLOSE_BRACE] + rest) == Some((Obj(entries), rest))
  {
    var tail := inside + ([CLOSE_BRACE] + rest);
    Regroup4([OPEN_BRACE], inside, [CLOSE_BRACE], rest);
    var s := [OPEN_BRACE] + tail;
    assert s[1..] == tail;
    assert |entries| == 0 ==> s[2..] == rest;
  }

  /** Plain printing is undone by reading, whatever delimiter-led text follows. */
  lemma {:induction false} ReadPlain(v: Value, rest: Text)
    requires WellFormed(v) && Normalised(v)
    requires Delimited(rest)
    ensures ReadValue(Plain(v) + rest) == Some((v, rest))
    decreases v, 1
  {
    match v
    case Null => ReadWord(NULL, v, rest);
    case Bool(b) => ReadWord(if b then TRUE else FALSE, v, rest);
    case Number(n) =>
      PlainHead(v);
      ReadPrintedNumber(n, rest);
    case Str(t) => ReadQuoted(t, rest);
    case Arr(items) =>
      if |items| > 0 {
        PlainHead(items[0]);
        ReadPlainItems(items, rest);
      }
      ReadBracketed(Join(PlainItems(items)), items, rest);
    case Obj(entries) =>
      if |entries| > 0 {
        ReadPlainEntries(entries, rest);
      }
      ReadBraced(JoinEntries(PlainEntries(entries)), entries, rest);
  }

  // --- The main results ------------------------------------------------------------------------

  /** A reader of JSON gets back the normal form of what was printed, and nothing more. */
  lemma ReadCanonical(v: Value, rest: Text)
    requires WellFormed(v)
    requires Delimited(rest)
    ensures ReadValue(Canonical(v) + rest) == Some((Normal(v), rest))
  {
    PrintNormal(v);
    ReadPlain(Normal(v), rest);
  }

  /** Comparing printed strings is comparing values up to normalisation. */
  lemma CanonicalDecides(v: Value, w: Value)
    requires WellFormed(v) && WellFormed(w)
    ensures Canonical(v) == Canonical(w) <==> Same(v, w)
  {
    NormalDecidesSame(v, w);
    PrintNormal(v);
    PrintNormal(w);
    ReadCanonical(v, []);
    ReadCanonical(w, []);
  }
}
