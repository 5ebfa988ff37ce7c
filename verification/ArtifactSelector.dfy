/**
 * The selector of a module-artifact layer: normalisation, the canonical key and its
 * memo, matching, and the axes that a target leaves open.
 *
 * The vocabulary of platform axes is data, so everything here is proved for any list
 * of axes: distinct names without `=` and `;`, none of them `format`.
 */
module ArtifactSelector {
  import opened Prelude

  /** A value read off a document. `Other` is null, a number or a boolean. */
  datatype Raw =
    | Undefined
    | Other
    | Str(s: string)
    | List(items: seq<Raw>)
    | Record(fields: map<string, Raw>)

  const FORMAT := "format"

  /** The axis names, in order, and the form an axis may ask of its values. */
  datatype Vocabulary = Vocabulary(names: seq<string>, hasForm: (string, string) -> bool) {
    ghost predicate Valid() {
      && Distinct(names)
      && FORMAT !in names
      && forall n :: n in names ==> '=' !in n && ';' !in n
    }
  }

  predicate Distinct<T(==)>(s: seq<T>) {
    forall i, j :: 0 <= i < j < |s| ==> s[i] != s[j]
  }

  datatype Selector = Selector(format: string, axes: map<string, string>)

  datatype Target = Target(format: Option<string>, axes: map<string, string>)

  // --- Normalisation ----------------------------------------------------------------

  /**
   * `toLowerCase`, as far as a token can tell: besides `A` to `Z` only the Kelvin sign
   * lowers to a token character. Any other non-ASCII character lowers to text holding
   * a non-ASCII character, and the token grammar refuses it with or without lowering.
   */
  function LowerChar(c: char): char {
    if 'A' <= c <= 'Z' then (c as int + 32) as char else if c == '\U{212A}' then 'k' else c
  }

  function Lower(s: string): (r: string)
    ensures |r| == |s|
    ensures forall i :: 0 <= i < |s| ==> r[i] == LowerChar(s[i])
  {
    seq(|s|, i requires 0 <= i < |s| => LowerChar(s[i]))
  }

  predicate Alphanumeric(c: char) {
    'a' <= c <= 'z' || '0' <= c <= '9'
  }

  predicate IsToken(s: string) {
    && |s| > 0
    && Alphanumeric(s[0])
    && forall c :: c in s ==> Alphanumeric(c) || c == '_' || c == '.' || c == '-'
  }

  predicate IsNormal(v: Vocabulary, axis: string, value: string) {
    IsToken(value) && (axis in v.names ==> v.hasForm(axis, value))
  }

  /** `None` where the source throws. */
  function NormalizeAxisValue(v: Vocabulary, axis: string, raw: Raw): (r: Option<string>)
    ensures r.Some? ==> IsNormal(v, axis, r.value)
  {
    if !raw.Str? then None
    else
      var value := Lower(Trim(raw.s));
      if IsNormal(v, axis, value) then Some(value) else None
  }

  lemma {:induction false} TrimToken(s: string)
    requires IsToken(s)
    ensures Trim(s) == s && Lower(s) == s
  {
    assert forall c :: c in s ==> !IsSpace(c) && LowerChar(c) == c;
    assert s[0] in s && s[|s| - 1] in s;
    assert forall i :: 0 <= i < |s| ==> s[i] in s;
  }

  /** Normalising is idempotent, and exactly the normal values are left alone. */
  lemma NormalizeFixes(v: Vocabulary, axis: string, value: string)
    ensures NormalizeAxisValue(v, axis, Str(value)) == Some(value) <==> IsNormal(v, axis, value)
  {
    if IsNormal(v, axis, value) {
      TrimToken(value);
    }
  }

  function Get(fields: map<string, Raw>, key: string): Raw {
    if key in fields then fields[key] else Undefined
  }

  predicate ValidSelector(v: Vocabulary, s: Selector) {
    && IsNormal(v, FORMAT, s.format)
    && forall a :: a in s.axes ==> a in v.names && IsNormal(v, a, s.axes[a])
  }

  predicate Omitted(raw: Raw) {
    raw.Undefined? || raw == Str("")
  }

  /**
   * What the qualifiers say about the axes of `names`: `None` where one of them is
   * stated and refused, otherwise the stated ones with their normal values.
   */
  ghost predicate Reads(v: Vocabulary, fields: map<string, Raw>, names: seq<string>, r: Option<map<string, string>>) {
    if r.None? then
      exists a :: a in names && !Omitted(Get(fields, a)) && NormalizeAxisValue(v, a, Get(fields, a)).None?
    else
      && (forall a :: a in r.value <==> a in names && !Omitted(Get(fields, a)))
      && (forall a :: a in r.value ==> NormalizeAxisValue(v, a, Get(fields, a)) == Some(r.value[a]))
  }

  function ReadAxes(v: Vocabulary, fields: map<string, Raw>, names: seq<string>): (r: Option<map<string, string>>)
    ensures Reads(v, fields, names, r)
  {
    if |names| == 0 then Some(map[])
    else
      var last := names[|names| - 1];
      var others := ReadAxes(v, fields, names[..|names| - 1]);
      assert names == names[..|names| - 1] + [last];
      if others.None? || Omitted(Get(fields, last)) then others
      else
        var value := NormalizeAxisValue(v, last, Get(fields, last));
        if value.None? then None else Some(others.value[last := value.value])
  }

  function FromQualifiers(v: Vocabulary, format: Raw, fields: map<string, Raw>): (r: Option<Selector>)
    ensures r.Some? ==> ValidSelector(v, r.value)
  {
    var f := NormalizeAxisValue(v, FORMAT, format);
    if f.None? then None
    else
      var axes := ReadAxes(v, fields, v.names);
      if axes.None? then None else Some(Selector(f.value, axes.value))
  }

  lemma RefusedPrefix(v: Vocabulary, fields: map<string, Raw>, n: nat)
    requires n <= |v.names|
    requires ReadAxes(v, fields, v.names[..n]).None?
    ensures ReadAxes(v, fields, v.names).None?
  {
    var a :| a in v.names[..n] && !Omitted(Get(fields, a)) && NormalizeAxisValue(v, a, Get(fields, a)).None?;
    assert a in v.names;
  }

  /** A selector object: its axes are assigned one by one while it is built. */
  class SelectorObject {
    var format: string
    var axes: map<string, string>

    constructor (format: string)
      ensures Value() == Selector(format, map[])
    {
      this.format := format;
      this.axes := map[];
    }

    function Value(): Selector
      reads this
    {
      Selector(format, axes)
    }

    method SetAxis(axis: string, value: string)
      modifies this
      ensures Value() == Selector(old(format), old(axes)[axis := value])
    {
      axes := axes[axis := value];
    }
  }

  method SelectorFromQualifiers(v: Vocabulary, format: Raw, fields: map<string, Raw>)
          returns (r: Option<SelectorObject>)
    ensures r.None? <==> FromQualifiers(v, format, fields).None?
    ensures r.Some? ==> fresh(r.value) && Some(r.value.Value()) == FromQualifiers(v, format, fields)
  {
    var f := NormalizeAxisValue(v, FORMAT, format);
    if f.None? {
      return None;
    }
    var selector := new SelectorObject(f.value);
    for i := 0 to |v.names|
      invariant selector.format == f.value && ReadAxes(v, fields, v.names[..i]) == Some(selector.axes)
    {
      assert v.names[..i + 1][..i] == v.names[..i];
      var raw := Get(fields, v.names[i]);
      if !Omitted(raw) {
        var value := NormalizeAxisValue(v, v.names[i], raw);
        if value.None? {
          RefusedPrefix(v, fields, i + 1);
          return None;
        }
        selector.SetAxis(v.names[i], value.value);
      }
    }
    assert v.names[..|v.names|] == v.names;
    return Some(selector);
  }

  datatype Normalized = Refused | ForNewerRuntime | Known(selector: Selector)

  predicate CarriesUnknownAxis(v: Vocabulary, fields: map<string, Raw>) {
    exists k :: k in fields.Keys && k != FORMAT && k !in v.names
  }

  function NormalizeSelector(v: Vocabulary, value: Raw): (r: Normalized)
    ensures r.Known? ==> ValidSelector(v, r.selector)
  {
    if !value.Record? then Refused
    else
      var selector := FromQualifiers(v, Get(value.fields, FORMAT), value.fields);
      if selector.None? then Refused
      else if CarriesUnknownAxis(v, value.fields) then ForNewerRuntime
      else Known(selector.value)
  }

  /** A selector as the record a published index carries. */
  function ToRecord(s: Selector): Raw {
    Record((map a | a in s.axes :: Str(s.axes[a]))[FORMAT := Str(s.format)])
  }

  /** A published selector reads back as itself. */
  lemma NormalizeRendered(v: Vocabulary, s: Selector)
    requires v.Valid() && ValidSelector(v, s)
    ensures NormalizeSelector(v, ToRecord(s)) == Known(s)
  {
    var fields := ToRecord(s).fields;
    assert Get(fields, FORMAT) == Str(s.format);
    NormalizeFixes(v, FORMAT, s.format);
    forall a | a in v.names ensures Get(fields, a) == if a in s.axes then Str(s.axes[a]) else Undefined {
    }
    RenderedAxes(v, s, fields);
    assert forall k :: k in fields ==> k == FORMAT || k in s.axes;
  }

  lemma ReadsRendered(v: Vocabulary, s: Selector, fields: map<string, Raw>, axes: Option<map<string, string>>)
    requires ValidSelector(v, s) && Reads(v, fields, v.names, axes)
    requires forall a :: a in v.names && a !in s.axes ==> Get(fields, a) == Undefined
    requires forall a :: a in s.axes ==>
               !Omitted(Get(fields, a)) && NormalizeAxisValue(v, a, Get(fields, a)) == Some(s.axes[a])
    ensures axes == Some(s.axes)
  {
    if axes.None? {
      var a :| a in v.names && !Omitted(Get(fields, a)) && NormalizeAxisValue(v, a, Get(fields, a)).None?;
      assert a in s.axes;
    } else {
      SameAxes(axes.value, s.axes);
    }
  }

  lemma SameAxes(a: map<string, string>, b: map<string, string>)
    requires (forall k :: k in a <==> k in b) && forall k :: k in a ==> a[k] == b[k]
    ensures a == b
  {
  }

  lemma RenderedAxes(v: Vocabulary, s: Selector, fields: map<string, Raw>)
    requires ValidSelector(v, s)
    requires forall a :: a in v.names ==> Get(fields, a) == if a in s.axes then Str(s.axes[a]) else Undefined
    ensures ReadAxes(v, fields, v.names) == Some(s.axes)
  {
    forall a | a in s.axes
      ensures !Omitted(Get(fields, a)) && NormalizeAxisValue(v, a, Get(fields, a)) == Some(s.axes[a])
    {
      NormalizeFixes(v, a, s.axes[a]);
    }
    ReadsRendered(v, s, fields, ReadAxes(v, fields, v.names));
  }

  // --- The canonical key --------------------------------------------------------------

  /** The order of `Array.prototype.sort` on strings. */
  predicate Before(a: string, b: string) {
    if |b| == 0 then false
    else if |a| == 0 then true
    else a[0] < b[0] || (a[0] == b[0] && Before(a[1..], b[1..]))
  }

  function InsertString(x: string, sorted: seq<string>): seq<string> {
    if |sorted| == 0 || !Before(sorted[0], x) then [x] + sorted
    else [sorted[0]] + InsertString(x, sorted[1..])
  }

  function SortStrings(s: seq<string>): seq<string> {
    if |s| == 0 then [] else InsertString(s[0], SortStrings(s[1..]))
  }

  lemma {:induction false} InsertKeeps(x: string, sorted: seq<string>)
    ensures multiset(InsertString(x, sorted)) == multiset(sorted) + multiset{x}
  {
    if |sorted| > 0 && Before(sorted[0], x) {
      InsertKeeps(x, sorted[1..]);
      assert sorted == [sorted[0]] + sorted[1..];
    }
  }

  lemma {:induction false} SortKeeps(s: seq<string>)
    ensures multiset(SortStrings(s)) == multiset(s)
    ensures |SortStrings(s)| == |s|
  {
    if |s| > 0 {
      SortKeeps(s[1..]);
      InsertKeeps(s[0], SortStrings(s[1..]));
      assert s == [s[0]] + s[1..];
    }
    assert |multiset(s)| == |s| && |multiset(SortStrings(s))| == |SortStrings(s)|;
  }

  function Pair(axis: string, value: string): string {
    axis + "=" + value
  }

  function AxisPairs(s: Selector, names: seq<string>): seq<string> {
    if |names| == 0 then []
    else
      (if names[0] in s.axes then [Pair(names[0], s.axes[names[0]])] else []) + AxisPairs(s, names[1..])
  }

  function Pairs(v: Vocabulary, s: Selector): seq<string> {
    [Pair(FORMAT, s.format)] + AxisPairs(s, v.names)
  }

  function Key(v: Vocabulary, s: Selector): string {
    Join(SortStrings(Pairs(v, s)), ';')
  }

  lemma {:induction false} AxisPairsHold(s: Selector, names: seq<string>)
    ensures forall p :: p in AxisPairs(s, names) <==> exists a :: a in names && a in s.axes && p == Pair(a, s.axes[a])
  {
    if |names| > 0 {
      AxisPairsHold(s, names[1..]);
      assert names == [names[0]] + names[1..];
    }
  }

  lemma ShorterAxisDiffers(a: string, x: string, b: string, y: string)
    requires '=' !in b && |a| < |b|
    ensures Pair(a, x) != Pair(b, y)
  {
    assert Pair(a, x)[|a|] == '=';
    assert Pair(b, y)[|a|] == b[|a|];
  }

  lemma PairUnique(a: string, x: string, b: string, y: string)
    requires '=' !in a && '=' !in b
    requires Pair(a, x) == Pair(b, y)
    ensures a == b && x == y
  {
    var p, q := Pair(a, x), Pair(b, y);
    if |a| < |b| {
      ShorterAxisDiffers(a, x, b, y);
    } else if |b| < |a| {
      ShorterAxisDiffers(b, y, a, x);
    } else {
      assert p[..|a|] == a && q[..|b|] == b;
      assert p[|a| + 1..] == x && q[|b| + 1..] == y;
    }
  }

  lemma PairsFree(v: Vocabulary, s: Selector)
    requires v.Valid() && ValidSelector(v, s)
    ensures forall p :: p in Pairs(v, s) ==> ';' !in p
  {
    AxisPairsHold(s, v.names);
  }

  lemma SortedParts(v: Vocabulary, s: Selector)
    requires v.Valid() && ValidSelector(v, s)
    ensures Split(Key(v, s), ';') == SortStrings(Pairs(v, s))
  {
    PairsFree(v, s);
    SortKeeps(Pairs(v, s));
    var sorted := SortStrings(Pairs(v, s));
    forall p | p in sorted ensures ';' !in p {
      assert p in multiset(sorted);
      assert p in multiset(Pairs(v, s));
    }
    SplitJoined(sorted, ';');
  }

  lemma SamePairs(v: Vocabulary, s: Selector, t: Selector)
    requires v.Valid() && ValidSelector(v, s) && ValidSelector(v, t)
    requires Key(v, s) == Key(v, t)
    ensures forall p :: p in Pairs(v, s) ==> p in Pairs(v, t)
  {
    SortedParts(v, s);
    SortedParts(v, t);
    SortKeeps(Pairs(v, s));
    SortKeeps(Pairs(v, t));
    assert multiset(Pairs(v, s)) == multiset(Pairs(v, t));
    assert forall p :: p in Pairs(v, s) ==> p in multiset(Pairs(v, s));
    assert forall p :: p in multiset(Pairs(v, t)) ==> p in Pairs(v, t);
  }

  /** A pair of `t` that begins with an axis of the vocabulary states that axis. */
  lemma AxisPairStated(v: Vocabulary, t: Selector, a: string, x: string)
    requires v.Valid() && ValidSelector(v, t)
    requires a in v.names
    requires Pair(a, x) in Pairs(v, t)
    ensures a in t.axes && t.axes[a] == x
  {
    AxisPairsHold(t, v.names);
    var p := Pair(a, x);
    if p == Pair(FORMAT, t.format) {
      PairUnique(a, x, FORMAT, t.format);
    } else {
      var b :| b in v.names && b in t.axes && p == Pair(b, t.axes[b]);
      PairUnique(a, x, b, t.axes[b]);
    }
  }

  lemma FormatPairStated(v: Vocabulary, t: Selector, x: string)
    requires v.Valid() && ValidSelector(v, t)
    requires Pair(FORMAT, x) in Pairs(v, t)
    ensures t.format == x
  {
    AxisPairsHold(t, v.names);
    var p := Pair(FORMAT, x);
    if p == Pair(FORMAT, t.format) {
      PairUnique(FORMAT, x, FORMAT, t.format);
    } else {
      var b :| b in v.names && b in t.axes && p == Pair(b, t.axes[b]);
      PairUnique(FORMAT, x, b, t.axes[b]);
    }
  }

  lemma KeyStates(v: Vocabulary, s: Selector, t: Selector)
    requires v.Valid() && ValidSelector(v, s) && ValidSelector(v, t)
    requires Key(v, s) == Key(v, t)
    ensures s.format == t.format
    ensures forall a :: a in s.axes ==> a in t.axes && t.axes[a] == s.axes[a]
  {
    SamePairs(v, s, t);
    AxisPairsHold(s, v.names);
    assert Pair(FORMAT, s.format) in Pairs(v, s);
    FormatPairStated(v, t, s.format);
    forall a | a in s.axes ensures a in t.axes && t.axes[a] == s.axes[a] {
      assert Pair(a, s.axes[a]) in AxisPairs(s, v.names);
      AxisPairStated(v, t, a, s.axes[a]);
    }
  }

  /** No two selectors share a key, and none has two. */
  lemma KeyInjective(v: Vocabulary, s: Selector, t: Selector)
    requires v.Valid() && ValidSelector(v, s) && ValidSelector(v, t)
    ensures Key(v, s) == Key(v, t) <==> s == t
  {
    if Key(v, s) == Key(v, t) {
      KeyStates(v, s, t);
      KeyStates(v, t, s);
      assert s.axes == t.axes;
    }
  }

  // --- The key does not depend on the order of the vocabulary ------------------------------

  lemma {:induction false} BeforeTotal(a: string, b: string)
    ensures Before(a, b) || a == b || Before(b, a)
    ensures !(Before(a, b) && Before(b, a))
  {
    if |a| > 0 && |b| > 0 {
      BeforeTotal(a[1..], b[1..]);
      if a[0] == b[0] && a[1..] == b[1..] {
        assert a == [a[0]] + a[1..] && b == [b[0]] + b[1..];
      }
    }
  }

  lemma {:induction false} BeforeTransitive(a: string, b: string, c: string)
    requires Before(a, b) && Before(b, c)
    ensures Before(a, c)
  {
    if |a| > 0 && a[0] == b[0] && b[0] == c[0] {
      BeforeTransitive(a[1..], b[1..], c[1..]);
    }
  }

  predicate NotAfter(a: string, b: string) {
    a == b || Before(a, b)
  }

  /** The first string is not after any other, and so on. */
  predicate Ascending(s: seq<string>) {
    |s| > 0 ==> (forall x :: x in s ==> NotAfter(s[0], x)) && Ascending(s[1..])
  }

  lemma {:induction false} InsertAscending(x: string, sorted: seq<string>)
    requires Ascending(sorted)
    ensures Ascending(InsertString(x, sorted))
  {
    var r := InsertString(x, sorted);
    if |sorted| > 0 {
      BeforeTotal(sorted[0], x);
      if Before(sorted[0], x) {
        InsertAscending(x, sorted[1..]);
        InsertKeeps(x, sorted[1..]);
        forall y | y in r ensures NotAfter(r[0], y) {
          assert y in multiset(InsertString(x, sorted[1..])) || y == sorted[0];
        }
      } else {
        forall y | y in r ensures NotAfter(x, y) {
          if y != x && sorted[0] != x && y != sorted[0] {
            BeforeTransitive(x, sorted[0], y);
          }
        }
      }
    }
  }

  lemma {:induction false} SortAscending(s: seq<string>)
    ensures Ascending(SortStrings(s))
  {
    if |s| > 0 {
      SortAscending(s[1..]);
      InsertAscending(s[0], SortStrings(s[1..]));
    }
  }

  lemma AscendingHeads(a: seq<string>, b: seq<string>)
    requires |a| > 0 && |b| > 0
    requires Ascending(a) && Ascending(b)
    requires multiset(a) == multiset(b)
    ensures a[0] == b[0]
  {
    assert a[0] in multiset(b) && b[0] in multiset(a);
    assert NotAfter(a[0], b[0]) && NotAfter(b[0], a[0]);
    BeforeTotal(a[0], b[0]);
  }

  lemma TailMultiset(a: seq<string>)
    requires |a| > 0
    ensures multiset(a[1..]) == multiset(a) - multiset{a[0]}
  {
    assert a == [a[0]] + a[1..];
  }

  lemma {:induction false} AscendingUnique(a: seq<string>, b: seq<string>)
    requires Ascending(a) && Ascending(b)
    requires multiset(a) == multiset(b)
    ensures a == b
  {
    assert |multiset(a)| == |a| && |multiset(b)| == |b|;
    if |a| > 0 {
      AscendingHeads(a, b);
      TailMultiset(a);
      TailMultiset(b);
      AscendingUnique(a[1..], b[1..]);
      assert a == [a[0]] + a[1..] && b == [b[0]] + b[1..];
    }
  }

  lemma AxisPairsFirst(s: Selector, axis: string, rest: seq<string>)
    ensures AxisPairs(s, [axis] + rest) == AxisPairs(s, [axis]) + AxisPairs(s, rest)
  {
    assert ([axis] + rest)[1..] == rest;
    assert [axis][1..] == [];
    AddNothing(AxisPairs(s, [axis]));
  }

  lemma MovedBehind(first: seq<string>, moved: seq<string>, all: seq<string>, others: seq<string>)
    requires multiset(all) == multiset(moved) + multiset(others)
    ensures multiset(first + all) == multiset(moved) + multiset(first + others)
  {
  }

  lemma {:induction false} AxisPairsMoved(s: Selector, before: seq<string>, axis: string, after: seq<string>)
    ensures multiset(AxisPairs(s, before + [axis] + after)) ==
        multiset(AxisPairs(s, [axis])) + multiset(AxisPairs(s, before + after))
  {
    if |before| > 0 {
      var a, rest := before[0], before[1..];
      AxisPairsMoved(s, rest, axis, after);
      assert before + [axis] + after == [a] + (rest + [axis] + after) && before + after == [a] + (rest + after);
      AxisPairsFirst(s, a, rest + [axis] + after);
      AxisPairsFirst(s, a, rest + after);
      MovedBehind(AxisPairs(s, [a]), AxisPairs(s, [axis]), AxisPairs(s, rest + [axis] + after),
          AxisPairs(s, rest + after));
    } else {
      assert before + [axis] + after == [axis] + after;
      assert before + after == after;
      AxisPairsFirst(s, axis, after);
    }
  }

  lemma MultisetWithout(a: seq<string>, i: nat)
    requires i < |a|
    ensures a == a[..i] + [a[i]] + a[i + 1..]
    ensures multiset(a[..i] + a[i + 1..]) == multiset(a) - multiset{a[i]}
  {
    assert a == a[..i] + [a[i]] + a[i + 1..];
    assert multiset(a) == multiset(a[..i]) + multiset{a[i]} + multiset(a[i + 1..]);
  }

  lemma {:induction false} AxisPairsPermuted(s: Selector, names: seq<string>, others: seq<string>)
    requires multiset(names) == multiset(others)
    ensures multiset(AxisPairs(s, names)) == multiset(AxisPairs(s, others))
  {
    assert |multiset(names)| == |names| && |multiset(others)| == |others|;
    if |names| > 0 {
      assert names[0] in multiset(others);
      var i :| 0 <= i < |others| && others[i] == names[0];
      var rest := others[..i] + others[i + 1..];
      TailMultiset(names);
      MultisetWithout(others, i);
      AxisPairsMoved(s, others[..i], names[0], others[i + 1..]);
      AxisPairsMoved(s, [], names[0], names[1..]);
      assert [] + [names[0]] + names[1..] == names && [] + names[1..] == names[1..];
      AxisPairsPermuted(s, names[1..], rest);
    }
  }

  /** Listing the axes in another order moves no layer to another address. */
  lemma KeyIgnoresAxisOrder(v: Vocabulary, w: Vocabulary, s: Selector)
    requires multiset(v.names) == multiset(w.names)
    ensures Key(v, s) == Key(w, s)
  {
    AxisPairsPermuted(s, v.names, w.names);
    SortKeeps(Pairs(v, s));
    SortKeeps(Pairs(w, s));
    SortAscending(Pairs(v, s));
    SortAscending(Pairs(w, s));
    AscendingUnique(SortStrings(Pairs(v, s)), SortStrings(Pairs(w, s)));
  }

  // --- The memo -------------------------------------------------------------------------

  /** The map from selector objects to their keys. */
  class KeyMemo {
    const vocabulary: Vocabulary
    var keys: map<SelectorObject, string>

    ghost predicate Valid()
      reads this, keys.Keys
    {
      forall s :: s in keys ==> keys[s] == Key(vocabulary, s.Value())
    }

    constructor (v: Vocabulary)
      ensures Valid() && fresh(this) && vocabulary == v && keys == map[]
    {
      vocabulary := v;
      keys := map[];
    }

    method SelectorKey(selector: SelectorObject) returns (key: string)
      requires Valid()
      modifies this
      ensures Valid()
      ensures key == Key(vocabulary, selector.Value())
      ensures keys == old(keys)[selector := key]
    {
      if selector in keys {
        key := keys[selector];
        assert keys == keys[selector := key];
      } else {
        key := Join(SortStrings(Pairs(vocabulary, selector.Value())), ';');
        keys := keys[selector := key];
      }
    }

    /** A run of calls, the same object any number of times. */
    method SelectorKeys(selectors: seq<SelectorObject>) returns (r: seq<string>)
      requires Valid() && vocabulary.Valid()
      requires forall s :: s in selectors ==> ValidSelector(vocabulary, s.Value())
      modifies this
      ensures Valid()
      ensures |r| == |selectors|
      ensures forall i, j :: 0 <= i < |r| && 0 <= j < |r| ==>
                (r[i] == r[j] <==> selectors[i].Value() == selectors[j].Value())
    {
      r := [];
      for i := 0 to |selectors|
        invariant Valid()
        invariant |r| == i
        invariant forall j :: 0 <= j < i ==> r[j] == Key(vocabulary, selectors[j].Value())
      {
        var key := SelectorKey(selectors[i]);
        r := r + [key];
      }
      forall i, j | 0 <= i < |r| && 0 <= j < |r|
        ensures r[i] == r[j] <==> selectors[i].Value() == selectors[j].Value()
      {
        KeyInjective(vocabulary, selectors[i].Value(), selectors[j].Value());
      }
    }

    /**
     * Whatever else happens to the heap, the memo stays right exactly when no selector
     * it knows has become another one: a selector must be complete once it is keyed.
     */
    twostate lemma StaysValid()
      requires old(Valid()) && keys == old(keys)
      requires vocabulary.Valid()
      requires forall s :: s in keys ==>
                 ValidSelector(vocabulary, s.Value()) && old(ValidSelector(vocabulary, s.Value()))
      ensures Valid() <==> forall s :: s in keys ==> s.Value() == old(s.Value())
    {
      forall s | s in keys
        ensures keys[s] == Key(vocabulary, s.Value()) <==> s.Value() == old(s.Value())
      {
        KeyInjective(vocabulary, s.Value(), old(s.Value()));
      }
    }
  }

  // --- Matching ----------------------------------------------------------------------------

  predicate FormatAgrees(s: Selector, t: Target) {
    t.format.None? || t.format.value == s.format
  }

  /** An axis keeps the two from matching. */
  predicate Blocks(s: Selector, t: Target, a: string) {
    a in s.axes && (a !in t.axes || t.axes[a] != s.axes[a])
  }

  predicate Matches(v: Vocabulary, s: Selector, t: Target) {
    FormatAgrees(s, t) && forall a :: a in v.names ==> !Blocks(s, t, a)
  }

  /** The target does not name another format, and has every value the selector states. */
  ghost predicate Agrees(v: Vocabulary, s: Selector, t: Target) {
    && (t.format == None || t.format == Some(s.format))
    && forall a :: a in v.names && a in s.axes ==> a in t.axes && t.axes[a] == s.axes[a]
  }

  lemma AgreesExactly(v: Vocabulary, s: Selector, t: Target)
    ensures Matches(v, s, t) <==> Agrees(v, s, t)
  {
    if !Agrees(v, s, t) && FormatAgrees(s, t) {
      var a :| a in v.names && a in s.axes && !(a in t.axes && t.axes[a] == s.axes[a]);
      assert Blocks(s, t, a);
    }
  }

  method SelectorMatches(v: Vocabulary, s: Selector, t: Target) returns (r: bool)
    ensures r == Matches(v, s, t)
    ensures r <==> Agrees(v, s, t)
  {
    AgreesExactly(v, s, t);
    if t.format.Some? && s.format != t.format.value {
      return false;
    }
    for i := 0 to |v.names|
      invariant forall j :: 0 <= j < i ==> !Blocks(s, t, v.names[j])
    {
      var axis := v.names[i];
      if axis in s.axes {
        if axis !in t.axes || t.axes[axis] != s.axes[axis] {
          assert axis in v.names && Blocks(s, t, axis);
          return false;
        }
      }
    }
    return true;
  }

  /** The axes of `names` the selector states and the target leaves open. */
  function OpenAxes(s: Selector, t: Target, names: seq<string>): (r: seq<string>)
    ensures forall a :: a in r <==> a in names && a in s.axes && a !in t.axes
    ensures Distinct(names) ==> Distinct(r)
  {
    if |names| == 0 then []
    else
      var last := names[|names| - 1];
      assert names == names[..|names| - 1] + [last];
      var others := OpenAxes(s, t, names[..|names| - 1]);
      if last in s.axes && last !in t.axes then others + [last] else others
  }

  /** The target determines an axis otherwise than the selector does. */
  predicate Differs(s: Selector, t: Target, axis: string) {
    axis in s.axes && axis in t.axes && t.axes[axis] != s.axes[axis]
  }

  /** The selector is for another platform: it differs where the target is determined. */
  predicate Contradicts(v: Vocabulary, s: Selector, t: Target) {
    !FormatAgrees(s, t) || exists a :: a in v.names && Differs(s, t, a)
  }

  lemma OpenNext(s: Selector, t: Target, names: seq<string>, axis: string)
    ensures OpenAxes(s, t, names + [axis])
         == OpenAxes(s, t, names) + if axis in s.axes && axis !in t.axes then [axis] else []
  {
    assert (names + [axis])[..|names|] == names;
  }

  lemma NoneNext(s: Selector, t: Target, names: seq<string>, axis: string)
    requires NoneDiffers(s, t, names) && !Differs(s, t, axis)
    ensures NoneDiffers(s, t, names + [axis])
  {
  }

  lemma ContradictedAt(v: Vocabulary, s: Selector, t: Target, axis: string)
    requires axis in v.names && Differs(s, t, axis)
    ensures Contradicts(v, s, t)
  {
  }

  lemma NoneContradicts(v: Vocabulary, s: Selector, t: Target)
    requires FormatAgrees(s, t) && NoneDiffers(s, t, v.names)
    ensures !Contradicts(v, s, t)
  {
  }

  ghost predicate NoneDiffers(s: Selector, t: Target, names: seq<string>) {
    forall a :: a in names ==> !Differs(s, t, a)
  }

  /** The axes a match is waiting for, if it is waiting for nothing else. */
  function Blocking(v: Vocabulary, s: Selector, t: Target): Option<seq<string>> {
    if Contradicts(v, s, t) || OpenAxes(s, t, v.names) == [] then None else Some(OpenAxes(s, t, v.names))
  }

  method UndeterminedAxesBlockingMatch(v: Vocabulary, s: Selector, t: Target) returns (r: Option<seq<string>>)
    ensures r == Blocking(v, s, t)
  {
    if t.format.Some? && s.format != t.format.value {
      return None;
    }
    var axes: seq<string> := [];
    ghost var before: seq<string> := [];
    for i := 0 to |v.names|
      invariant before == v.names[..i]
      invariant axes == OpenAxes(s, t, before)
      invariant NoneDiffers(s, t, before)
    {
      var axis := v.names[i];
      OpenNext(s, t, before, axis);
      if axis in s.axes {
        if axis !in t.axes {
          axes := axes + [axis];
        } else if t.axes[axis] != s.axes[axis] {
          ContradictedAt(v, s, t, axis);
          return None;
        }
      }
      NoneNext(s, t, before, axis);
      before := before + [axis];
    }
    assert v.names[..|v.names|] == v.names;
    NoneContradicts(v, s, t);
    return if |axes| > 0 then Some(axes) else None;
  }

  /** `t` with values for axes it leaves undetermined. */
  ghost predicate Fills(t: Target, filling: map<string, string>) {
    filling.Keys !! t.axes.Keys
  }

  function Filled(t: Target, filling: map<string, string>): Target {
    t.(axes := t.axes + filling)
  }

  /** The selector's own values on `axes`. */
  ghost predicate Supplies(s: Selector, axes: seq<string>, filling: map<string, string>) {
    forall a :: a in axes ==> a in filling && a in s.axes && filling[a] == s.axes[a]
  }

  /**
   * A selector matches a target, or is only waiting for the axes reported - and then a
   * filling makes it match exactly when it gives those axes the selector's own values -
   * or no filling at all makes it match.
   */
  lemma MatchingTrichotomy(v: Vocabulary, s: Selector, t: Target)
    requires v.Valid()
    ensures Matches(v, s, t) ==> Blocking(v, s, t).None?
    ensures Blocking(v, s, t).Some? ==>
              var axes := Blocking(v, s, t).value;
              && axes != [] && Distinct(axes)
              && (forall a :: a in axes ==> a in v.names && a in s.axes && a !in t.axes)
              && forall f :: Fills(t, f) ==> (Matches(v, s, Filled(t, f)) <==> Supplies(s, axes, f))
    ensures !Matches(v, s, t) && Blocking(v, s, t).None? ==>
              forall f :: Fills(t, f) ==> !Matches(v, s, Filled(t, f))
  {
    var axes := OpenAxes(s, t, v.names);
    if Matches(v, s, t) && axes != [] {
      assert axes[0] in axes;
      assert Blocks(s, t, axes[0]);
    }
    if Contradicts(v, s, t) && FormatAgrees(s, t) {
      var a :| a in v.names && a in s.axes && a in t.axes && t.axes[a] != s.axes[a];
      assert Blocks(s, t, a);
      forall f | Fills(t, f) ensures !Matches(v, s, Filled(t, f)) {
        assert Blocks(s, Filled(t, f), a);
      }
    }
    if !Contradicts(v, s, t) {
      forall f | Fills(t, f) ensures Matches(v, s, Filled(t, f)) <==> Supplies(s, axes, f) {
        var filled := Filled(t, f);
        forall a | a in v.names
          ensures Blocks(s, filled, a) <==> a in axes && !(a in f && f[a] == s.axes[a])
        {
        }
        if !Supplies(s, axes, f) {
          var a :| a in axes && !(a in f && a in s.axes && f[a] == s.axes[a]);
          assert Blocks(s, filled, a);
        }
      }
      if axes == [] {
        assert Matches(v, s, t);
      }
    }
  }

  /** `u` says all `t` says, and has the same format. */
  ghost predicate MoreDetermined(t: Target, u: Target) {
    t.format == u.format && forall a :: a in t.axes ==> a in u.axes && u.axes[a] == t.axes[a]
  }

  lemma MatchesGrows(v: Vocabulary, s: Selector, t: Target, u: Target)
    requires MoreDetermined(t, u) && Matches(v, s, t)
    ensures Matches(v, s, u)
  {
    forall a | a in v.names ensures !Blocks(s, u, a) {
      assert !Blocks(s, t, a);
    }
  }
}
