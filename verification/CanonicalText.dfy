/**
 * The canonical text itself, unit by unit: the order of keys, which characters a string
 * escapes and how, and which of its layouts a number is printed in.
 */
module CanonicalText {
  import opened CanonicalJson
  import opened JsonValue

  // --- The order of keys -----------------------------------------------------------------------

  ghost predicate Precedes(a: Text, b: Text) {
    exists n: nat :: ApartAt(a, b, n)
  }

  /** The keys of every object within a value ascend. */
  ghost predicate Ascends(v: Value) {
    match v
    case Arr(items) => forall i :: 0 <= i < |items| ==> Ascends(items[i])
    case Obj(entries) =>
      && (forall i, j :: 0 <= i < j < |entries| ==> Precedes(entries[i].0, entries[j].0))
      && forall i :: 0 <= i < |entries| ==> Ascends(entries[i].1)
    case _ => true
  }

  lemma {:induction false} SortFrom(entries: seq<(Text, Value)>, x: (Text, Value))
    requires x in SortByKey(entries)
    ensures x in entries
  {
    if |entries| > 0 {
      var sorted := SortByKey(entries[1..]);
      InsertMembers(entries[0], sorted);
      if x != entries[0] {
        SortFrom(entries[1..], x);
      }
    }
  }

  lemma {:induction false} EntriesAscend(entries: seq<(Text, Value)>)
    requires forall i :: 0 <= i < |entries| ==> WellFormed(entries[i].1)
    ensures forall x :: x in NormalEntries(entries) ==> Ascends(x.1)
    decreases entries, 0
  {
    if |entries| > 0 {
      var e := entries[0];
      assert e.1 < e;
      EntriesAscend(entries[1..]);
      NormalAscends(e.1);
    }
  }

  lemma SortedAscends(entries: seq<(Text, Value)>)
    requires SortedByKey(entries) && forall x :: x in entries ==> Ascends(x.1)
    ensures Ascends(Obj(entries))
  {
    forall i, j | 0 <= i < j < |entries| ensures Precedes(entries[i].0, entries[j].0) {
      LessExactly(entries[i].0, entries[j].0);
    }
    forall i | 0 <= i < |entries| ensures Ascends(entries[i].1) {
      assert entries[i] in entries;
    }
  }

  /** The keys of a normal form ascend, at every depth. */
  lemma {:induction false} NormalAscends(v: Value)
    requires WellFormed(v)
    ensures Ascends(Normal(v))
    decreases v, 1
  {
    match v
    case Arr(items) =>
      forall i | 0 <= i < |items| ensures Ascends(NormalItems(items)[i]) {
        NormalAscends(items[i]);
      }
    case Obj(entries) =>
      var kept := NormalEntries(entries);
      EntriesAscend(entries);
      NormalEntriesMap(entries);
      SortIsSorted(kept);
      forall x | x in SortByKey(kept) ensures Ascends(x.1) {
        SortFrom(kept, x);
      }
      SortedAscends(SortByKey(kept));
    case _ =>
  }

  /** What a reader of JSON gets back has its keys in ascending order of code units, at every depth. */
  lemma KeysAscend(v: Value, rest: Text)
    requires WellFormed(v) && Delimited(rest)
    ensures ReadValue(Canonical(v) + rest).Some? && Ascends(ReadValue(Canonical(v) + rest).value.0)
  {
    ReadCanonical(v, rest);
    NormalAscends(v);
  }

  // --- The text of a string ----------------------------------------------------------------------

  /** The units written as a backslash and a letter, or as themselves behind a backslash. */
  const SHORT: map<Unit, Unit> :=
    map[0x08 := 0x62, 0x09 := 0x74, 0x0A := 0x6E, 0x0C := 0x66, 0x0D := 0x72, 0x22 := 0x22, 0x5C := 0x5C]

  const LOWER_HEX: Text :=
    [0x30, 0x31, 0x32, 0x33, 0x34, 0x35, 0x36, 0x37, 0x38, 0x39, 0x61, 0x62, 0x63, 0x64, 0x65, 0x66]

  predicate IsHigh(s: Text, i: int) {
    0 <= i < |s| && 0xD800 <= s[i] <= 0xDBFF
  }

  predicate IsLow(s: Text, i: int) {
    0 <= i < |s| && 0xDC00 <= s[i] <= 0xDFFF
  }

  /** Half of a surrogate pair without its other half beside it. */
  predicate Lone(s: Text, i: int) {
    (IsHigh(s, i) && !IsLow(s, i + 1)) || (IsLow(s, i) && !IsHigh(s, i - 1))
  }

  /** What stands for the unit at `i`. */
  function UnitText(s: Text, i: nat): Text
    requires i < |s|
  {
    if s[i] in SHORT then [0x5C, SHORT[s[i]]]
    else if s[i] < 0x20 || Lone(s, i) then
      var u := s[i] as int;
      [0x5C, 0x75, LOWER_HEX[u / 0x1000], LOWER_HEX[u / 0x100 % 16], LOWER_HEX[u / 16 % 16], LOWER_HEX[u % 16]]
    else [s[i]]
  }

  function TextFrom(s: Text, i: nat): Text
    requires i <= |s|
    decreases |s| - i
  {
    if i == |s| then [] else UnitText(s, i) + TextFrom(s, i + 1)
  }

  lemma HexIs(u: Unit)
    ensures var n := u as int;
            UnicodeEscape(u) ==
            [0x5C, 0x75, LOWER_HEX[n / 0x1000], LOWER_HEX[n / 0x100 % 16], LOWER_HEX[n / 16 % 16], LOWER_HEX[n % 16]]
  {
    var n := u as int;
    assert n / 16 / 16 / 16 == n / 0x1000 && n / 16 / 16 == n / 0x100;
    DigitIs(n / 0x1000);
    DigitIs(n / 0x100 % 16);
    DigitIs(n / 16 % 16);
    DigitIs(n % 16);
  }

  lemma DigitIs(n: int)
    requires 0 <= n < 16
    ensures HexDigit(n) == LOWER_HEX[n]
  {
  }

  /** A unit that is not half of a pair at `i` and `i + 1` is escaped on its own. */
  lemma SingleText(s: Text, i: nat)
    requires i < |s| && !(IsHigh(s, i) && IsLow(s, i + 1)) && !(IsHigh(s, i - 1) && IsLow(s, i))
    ensures EscapeUnit(s[i]) == UnitText(s, i)
  {
    HexIs(s[i]);
  }

  lemma PairText(s: Text, i: nat)
    requires IsHigh(s, i) && IsLow(s, i + 1)
    ensures UnitText(s, i) == [s[i]] && UnitText(s, i + 1) == [s[i + 1]]
  {
  }

  lemma EscapePair(s: Text, i: nat)
    requires IsHigh(s, i) && IsLow(s, i + 1)
    ensures Escape(s[i..]) == [s[i], s[i + 1]] + Escape(s[i + 2..])
  {
    var tail := s[i..];
    assert tail[0] == s[i] && tail[1] == s[i + 1] && tail[2..] == s[i + 2..];
  }

  lemma EscapeSingle(s: Text, i: nat)
    requires i < |s| && !(IsHigh(s, i) && IsLow(s, i + 1))
    ensures Escape(s[i..]) == EscapeUnit(s[i]) + Escape(s[i + 1..])
  {
    var tail := s[i..];
    assert tail[0] == s[i] && tail[1..] == s[i + 1..];
    assert |tail| > 1 ==> tail[1] == s[i + 1];
  }

  lemma PairFrom(s: Text, i: nat)
    requires IsHigh(s, i) && IsLow(s, i + 1)
    ensures TextFrom(s, i) == [s[i], s[i + 1]] + TextFrom(s, i + 2)
  {
    PairText(s, i);
    assert TextFrom(s, i + 1) == [s[i + 1]] + TextFrom(s, i + 2);
  }

  lemma {:induction false} EscapeFrom(s: Text, i: nat)
    requires i <= |s| && !(IsHigh(s, i - 1) && IsLow(s, i))
    ensures Escape(s[i..]) == TextFrom(s, i)
    decreases |s| - i
  {
    if i < |s| {
      if IsHigh(s, i) && IsLow(s, i + 1) {
        EscapeFrom(s, i + 2);
        EscapePair(s, i);
        PairFrom(s, i);
      } else {
        EscapeFrom(s, i + 1);
        EscapeSingle(s, i);
        SingleText(s, i);
      }
    }
  }

  /**
   * A string is printed between quotes unit by unit: seven units by a short escape, other
   * control characters and lone surrogates by four lower-case hexadecimal digits, all else
   * as it is.
   */
  lemma StringExactly(s: Text)
    ensures Canonical(Str(s)) == [0x22] + TextFrom(s, 0) + [0x22]
  {
    EscapeFrom(s, 0);
    assert s[0..] == s;
  }

  // --- The layout of a number ----------------------------------------------------------------------

  /** Digits alone, a point behind the first `point`, zeros before them, or an exponent. */
  lemma LayoutExactly(digits: seq<Digit>, point: int)
    requires |digits| > 0
    ensures var text, k := PrintMagnitude(digits, point), |digits|;
            && (LOWER_E in text <==> point > 21 || point <= -6)
            && (k <= point <= 21 ==> |text| == point && 0x2E !in text)
            && (0 < point < k && point <= 21 ==> |text| == k + 1 && text[point] == 0x2E)
            && (-6 < point <= 0 ==> |text| == 2 - point + k && text[..2] == [0x30, 0x2E])
            && (point > 21 || point <= -6 ==>
                 && (k == 1 ==> |text| > 2 && text[1] == 0x65)
                 && (k > 1 ==> |text| > k + 2 && text[1] == 0x2E && text[k + 1] == 0x65)
                 && text[if k == 1 then 2 else k + 2] == if point > 21 then 0x2B else 0x2D)
  {
    var text := PrintMagnitude(digits, point);
    if |digits| <= point <= 21 {
    } else if 0 < point <= 21 {
      assert text[point] == DOT;
    } else if -6 < point <= 0 {
      assert text[..2] == [ZERO, DOT];
    } else if |digits| == 1 {
      assert text[1] == LOWER_E;
    } else {
      assert text[1] == DOT && text[|digits| + 1] == LOWER_E;
    }
  }

  // --- By example ------------------------------------------------------------------------------------

  /** `{ b: null, a: null }`, as it was written. */
  const TWO_KEYS: seq<(Text, Value)> := [([0x62], Null), ([0x61], Null)]

  lemma TwoKeysSorted()
    ensures WellFormed(Obj(TWO_KEYS))
    ensures SortByKey(PrintEntries(TWO_KEYS)) == [([0x61], NULL), ([0x62], NULL)]
  {
    assert TWO_KEYS[1..] == [([0x61], Null)] && TWO_KEYS[1..][1..] == [];
    assert PrintEntries(TWO_KEYS[1..]) == [([0x61], NULL)];
    var printed: seq<(Text, Text)> := [([0x62], NULL), ([0x61], NULL)];
    assert PrintEntries(TWO_KEYS) == printed;
    var first: seq<(Text, Text)> := [([0x61], NULL)];
    assert printed[1..] == first && first[1..] == [];
    assert SortByKey(first) == Insert(first[0], []) == first;
    assert Less([0x61], [0x62]);
    assert Insert(printed[0], first) == [first[0]] + Insert(printed[0], []);
  }

  lemma QuotedLetter(u: Unit)
    requires 0x61 <= u <= 0x7A
    ensures Quote([u]) == [0x22, u, 0x22]
  {
    assert [u][1..] == [];
    assert Escape([u]) == [u];
  }

  /** `{"a":null,"b":null}`: the keys ascend, whatever order they were written in. */
  lemma KeysByExample()
    ensures WellFormed(Obj(TWO_KEYS))
    ensures Canonical(Obj(TWO_KEYS)) ==
            [0x7B, 0x22, 0x61, 0x22, 0x3A, 0x6E, 0x75, 0x6C, 0x6C, 0x2C,
             0x22, 0x62, 0x22, 0x3A, 0x6E, 0x75, 0x6C, 0x6C, 0x7D]
  {
    TwoKeysSorted();
    QuotedLetter(0x61);
    QuotedLetter(0x62);
    TwoJoined([0x61], [0x62]);
    TwoText();
  }

  lemma TwoText()
    ensures var first, second := [0x22, 0x61, 0x22] + [COLON] + NULL, [0x22, 0x62, 0x22] + [COLON] + NULL;
            [OPEN_BRACE] + (first + [COMMA] + second) + [CLOSE_BRACE] ==
            [0x7B, 0x22, 0x61, 0x22, 0x3A, 0x6E, 0x75, 0x6C, 0x6C, 0x2C,
             0x22, 0x62, 0x22, 0x3A, 0x6E, 0x75, 0x6C, 0x6C, 0x7D]
  {
    assert [0x22, 0x61, 0x22] + [COLON] + NULL == [0x22, 0x61, 0x22, 0x3A, 0x6E, 0x75, 0x6C, 0x6C];
    assert [0x22, 0x62, 0x22] + [COLON] + NULL == [0x22, 0x62, 0x22, 0x3A, 0x6E, 0x75, 0x6C, 0x6C];
  }

  lemma TwoJoined(a: Text, b: Text)
    ensures JoinEntries([(a, NULL), (b, NULL)]) == Quote(a) + [COLON] + NULL + [COMMA] + (Quote(b) + [COLON] + NULL)
  {
    var parts := [(a, NULL), (b, NULL)];
    assert parts[1..] == [(b, NULL)];
    assert JoinEntries(parts[1..]) == Quote(b) + [COLON] + NULL;
  }

  lemma NoZeros(digits: seq<Digit>)
    ensures digits + Zeros(0) == digits
  {
  }

  /** `1e+21`, and behind it `1.5e-7`: one step within the bounds they are printed in full. */
  lemma NumbersByExample()
    ensures Canonical(Number(Finite(false, [1], 22))) == [0x31, 0x65, 0x2B, 0x32, 0x31]
    ensures Canonical(Number(Finite(false, [1, 5], -6))) == [0x31, 0x2E, 0x35, 0x65, 0x2D, 0x37]
    ensures Canonical(Number(Finite(true, [1, 5], 1))) == [0x2D, 0x31, 0x2E, 0x35]
    ensures Canonical(Number(Zero(true))) == [0x30]
  {
    assert DecimalDigits(2) == [2];
    assert DecimalDigits(21) == DecimalDigits(2) + [1] == [2, 1];
    assert Units([2, 1]) == [0x32, 0x31] && Units([1]) == [0x31] && Units([5]) == [0x35];
    assert DecimalDigits(7) == [7] && Units([7]) == [0x37];
    var digits: seq<Digit> := [1, 5];
    assert digits[..1] == [1] && digits[1..] == [5];
    var one: seq<Digit> := [1];
    assert one[..1] == [1];
  }
}
