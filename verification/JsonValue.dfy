/**
 * The values `canonicalJson` is given, the order its objects are printed in, and
 * the two notions of "equal after normalisation" its callers rely on: a recursive
 * comparison that mentions no order at all (`Same`), and a normal form (`Normal`).
 *
 * Strings are sequences of 16-bit code units, so a lone surrogate is a string like
 * any other. A finite non-zero number is its shortest decimal: the digits of the
 * significand, without leading or trailing zero, and the position of the decimal
 * point counted from the first digit - the `k`, `s`, `n` of ECMAScript's
 * Number::toString, which determine the double they stand for.
 */
module JsonValue {
  import opened Prelude

  newtype Unit = u: int | 0 <= u < 0x10000
  type Text = seq<Unit>
  newtype Digit = d: int | 0 <= d < 10

  datatype Num =
    | NaN
    | Infinity(negative: bool)
    | Zero(negative: bool)
    | Finite(negative: bool, digits: seq<Digit>, point: int)

  /** `Opaque` is a function or a symbol: not `undefined`, and without a JSON form. */
  datatype Value =
    | Undefined
    | Opaque
    | Null
    | Bool(b: bool)
    | Number(n: Num)
    | Str(s: Text)
    | Arr(items: seq<Value>)
    | Obj(entries: seq<(Text, Value)>)

  predicate ShortestDecimal(n: Num) {
    n.Finite? ==> |n.digits| > 0 && n.digits[0] != 0 && n.digits[|n.digits| - 1] != 0
  }

  predicate DistinctKeys<T>(entries: seq<(Text, T)>) {
    forall i, j :: 0 <= i < j < |entries| ==> entries[i].0 != entries[j].0
  }

  /** What every JavaScript value satisfies: the own keys of an object differ. */
  predicate WellFormed(v: Value) {
    match v
    case Number(n) => ShortestDecimal(n)
    case Arr(items) => forall i :: 0 <= i < |items| ==> WellFormed(items[i])
    case Obj(entries) =>
      && DistinctKeys(entries)
      && forall i :: 0 <= i < |entries| ==> WellFormed(entries[i].1)
    case _ => true
  }

  // --- Structural equality, without an order ------------------------------------

  /** The values printed as `null` where they stand for themselves. */
  predicate Nullish(v: Value) {
    v.Undefined? || v.Opaque? || v.Null? || (v.Number? && (v.n.NaN? || v.n.Infinity?))
  }

  /** The value an object holds at `key`, an `undefined` one counting as absent. */
  function At(entries: seq<(Text, Value)>, key: Text): Option<Value> {
    if |entries| == 0 then None
    else if entries[0].0 == key && !entries[0].1.Undefined? then Some(entries[0].1)
    else At(entries[1..], key)
  }

  predicate SameNumber(m: Num, n: Num) {
    m == n || (m.Zero? && n.Zero?)
  }

  /**
   * Equal after reading every value without a JSON form as `null`, dropping the
   * `undefined` entries of objects and forgetting the order of their keys.
   */
  ghost predicate Same(v: Value, w: Value)
    decreases v
  {
    if Nullish(v) || Nullish(w) then Nullish(v) && Nullish(w)
    else
      match v
      case Number(m) => w.Number? && SameNumber(m, w.n)
      case Arr(items) =>
        && w.Arr?
        && |w.items| == |items|
        && forall i :: 0 <= i < |items| ==> Same(items[i], w.items[i])
      case Obj(entries) =>
        && w.Obj?
        && (forall i :: 0 <= i < |entries| && !entries[i].1.Undefined? ==>
              var there := At(w.entries, entries[i].0);
              there.Some? && Same(entries[i].1, there.value))
        && (forall j :: 0 <= j < |w.entries| && !w.entries[j].1.Undefined? ==>
              At(entries, w.entries[j].0).Some?)
      case _ => v == w
  }

  // --- The order of keys ----------------------------------------------------------

  /** JavaScript's `<` on strings: by code unit, a proper prefix first. */
  predicate Less(a: Text, b: Text) {
    if |b| == 0 then false
    else if |a| == 0 then true
    else a[0] < b[0] || (a[0] == b[0] && Less(a[1..], b[1..]))
  }

  lemma {:induction false} LessIrreflexive(a: Text)
    ensures !Less(a, a)
  {
    if |a| > 0 {
      LessIrreflexive(a[1..]);
    }
  }

  lemma {:induction false} LessTotal(a: Text, b: Text)
    ensures Less(a, b) || a == b || Less(b, a)
    ensures !(Less(a, b) && Less(b, a))
  {
    if |a| > 0 && |b| > 0 {
      LessTotal(a[1..], b[1..]);
      if a[0] == b[0] && a[1..] == b[1..] {
        assert a == [a[0]] + a[1..] && b == [b[0]] + b[1..];
      }
    }
  }

  lemma {:induction false} LessTransitive(a: Text, b: Text, c: Text)
    requires Less(a, b) && Less(b, c)
    ensures Less(a, c)
    decreases |a|
  {
    if |a| > 0 && a[0] == b[0] && b[0] == c[0] {
      LessTransitive(a[1..], b[1..], c[1..]);
    }
  }

  /** `a` and `b` agree on their first `n` units; then `a` ends first or has the smaller unit. */
  predicate ApartAt(a: Text, b: Text, n: nat) {
    n <= |a| && n < |b| && a[..n] == b[..n] && (n == |a| || a[n] < b[n])
  }

  /** The order is the one of the first difference. */
  lemma {:induction false} LessExactly(a: Text, b: Text)
    ensures Less(a, b) <==> exists n: nat :: ApartAt(a, b, n)
  {
    if |a| > 0 && |b| > 0 && a[0] == b[0] {
      LessExactly(a[1..], b[1..]);
      if n: nat :| ApartAt(a[1..], b[1..], n) {
        assert a[..n + 1] == [a[0]] + a[1..][..n] && b[..n + 1] == [b[0]] + b[1..][..n];
        assert ApartAt(a, b, n + 1);
      }
      if n: nat :| ApartAt(a, b, n) {
        assert n > 0;
        assert a[1..][..n - 1] == a[..n][1..] && b[1..][..n - 1] == b[..n][1..];
        assert ApartAt(a[1..], b[1..], n - 1);
      }
    } else if |b| > 0 {
      if |a| == 0 || a[0] < b[0] {
        assert ApartAt(a, b, 0);
      } else {
        forall n: nat ensures !ApartAt(a, b, n) {
          if 0 < n <= |a| && n < |b| {
            assert a[..n][0] == a[0] && b[..n][0] == b[0];
          }
        }
      }
    }
  }

  predicate SortedByKey<T>(entries: seq<(Text, T)>) {
    forall i, j :: 0 <= i < j < |entries| ==> Less(entries[i].0, entries[j].0)
  }

  function Insert<T>(e: (Text, T), sorted: seq<(Text, T)>): seq<(Text, T)> {
    if |sorted| == 0 || !Less(sorted[0].0, e.0) then [e] + sorted
    else [sorted[0]] + Insert(e, sorted[1..])
  }

  /** The stable sort of entries by key. */
  function SortByKey<T>(entries: seq<(Text, T)>): seq<(Text, T)> {
    if |entries| == 0 then [] else Insert(entries[0], SortByKey(entries[1..]))
  }

  function ToMap<T>(entries: seq<(Text, T)>): map<Text, T> {
    if |entries| == 0 then map[] else ToMap(entries[1..])[entries[0].0 := entries[0].1]
  }

  lemma {:induction false} ToMapKeys<T>(entries: seq<(Text, T)>)
    ensures forall k :: k in ToMap(entries) <==> exists i :: 0 <= i < |entries| && entries[i].0 == k
  {
    if |entries| > 0 {
      ToMapKeys(entries[1..]);
      forall k
        ensures k in ToMap(entries) <==> exists i :: 0 <= i < |entries| && entries[i].0 == k
      {
        if k in ToMap(entries[1..]) {
          var i :| 0 <= i < |entries[1..]| && entries[1..][i].0 == k;
          assert entries[i + 1].0 == k;
        }
        if i :| 0 <= i < |entries| && entries[i].0 == k {
          assert i > 0 ==> entries[1..][i - 1].0 == k;
        }
      }
    }
  }

  lemma {:induction false} ToMapValues<T>(entries: seq<(Text, T)>)
    requires DistinctKeys(entries)
    ensures forall i :: 0 <= i < |entries| ==>
        entries[i].0 in ToMap(entries) && ToMap(entries)[entries[i].0] == entries[i].1
  {
    if |entries| > 0 {
      ToMapValues(entries[1..]);
      forall i | 0 < i < |entries|
        ensures entries[i].0 in ToMap(entries) && ToMap(entries)[entries[i].0] == entries[i].1
      {
        assert entries[i] == entries[1..][i - 1];
      }
    }
  }

  lemma {:induction false} InsertMap<T>(e: (Text, T), sorted: seq<(Text, T)>)
    requires e.0 !in ToMap(sorted)
    ensures ToMap(Insert(e, sorted)) == ToMap(sorted)[e.0 := e.1]
  {
    if |sorted| == 0 || !Less(sorted[0].0, e.0) {
      assert ([e] + sorted)[1..] == sorted;
    } else {
      InsertMap(e, sorted[1..]);
      assert Insert(e, sorted)[1..] == Insert(e, sorted[1..]);
    }
  }

  lemma {:induction false} InsertMembers<T>(e: (Text, T), sorted: seq<(Text, T)>)
    ensures forall j :: 0 <= j < |Insert(e, sorted)| ==> Insert(e, sorted)[j] == e || Insert(e, sorted)[j] in sorted
  {
    if |sorted| > 0 && Less(sorted[0].0, e.0) {
      InsertMembers(e, sorted[1..]);
    }
  }

  lemma {:induction false} InsertSorted<T>(e: (Text, T), sorted: seq<(Text, T)>)
    requires SortedByKey(sorted)
    requires forall x :: x in sorted ==> x.0 != e.0
    ensures SortedByKey(Insert(e, sorted))
  {
    if |sorted| > 0 {
      var head, tail := sorted[0], sorted[1..];
      LessTotal(head.0, e.0);
      if Less(head.0, e.0) {
        InsertSorted(e, tail);
        InsertMembers(e, tail);
        var rest := Insert(e, tail);
        forall j | 0 <= j < |rest| ensures Less(head.0, rest[j].0) {
          var x := rest[j];
          if x != e {
            var i :| 0 <= i < |tail| && tail[i] == x;
            assert sorted[i + 1] == tail[i];
          }
        }
      } else {
        assert head in sorted;
        forall j | 0 < j < |sorted| ensures Less(e.0, sorted[j].0) {
          LessTransitive(e.0, head.0, sorted[j].0);
        }
      }
    }
  }

  lemma {:induction false} SortIsSorted<T>(entries: seq<(Text, T)>)
    requires DistinctKeys(entries)
    ensures SortedByKey(SortByKey(entries))
    ensures ToMap(SortByKey(entries)) == ToMap(entries)
  {
    if |entries| > 0 {
      SortIsSorted(entries[1..]);
      var sorted := SortByKey(entries[1..]);
      ToMapKeys(entries[1..]);
      ToMapKeys(sorted);
      InsertMap(entries[0], sorted);
      forall x | x in sorted ensures x.0 != entries[0].0 {
        assert x.0 in ToMap(sorted);
      }
      InsertSorted(entries[0], sorted);
    }
  }

  lemma SortedDistinct<T>(entries: seq<(Text, T)>)
    requires SortedByKey(entries)
    ensures DistinctKeys(entries)
  {
    forall i, j | 0 <= i < j < |entries| ensures entries[i].0 != entries[j].0 {
      LessIrreflexive(entries[i].0);
    }
  }

  lemma HeadsAgree<T>(a: seq<(Text, T)>, b: seq<(Text, T)>)
    requires SortedByKey(a) && SortedByKey(b)
    requires ToMap(a) == ToMap(b)
    requires |a| > 0 && |b| > 0
    ensures a[0] == b[0]
  {
    SortedDistinct(a);
    SortedDistinct(b);
    ToMapKeys(a);
    ToMapKeys(b);
    ToMapValues(a);
    ToMapValues(b);
    assert a[0].0 in ToMap(b);
    assert b[0].0 in ToMap(a);
    var j :| 0 <= j < |b| && b[j].0 == a[0].0;
    var i :| 0 <= i < |a| && a[i].0 == b[0].0;
    LessTotal(a[0].0, b[0].0);
  }

  lemma AddRemove<T>(m: map<Text, T>, key: Text, value: T)
    requires key !in m
    ensures m[key := value] - {key} == m
  {
  }

  lemma TailMap<T>(a: seq<(Text, T)>)
    requires |a| > 0 && DistinctKeys(a)
    ensures ToMap(a[1..]) == ToMap(a) - {a[0].0}
  {
    ToMapKeys(a[1..]);
    assert a[0].0 !in ToMap(a[1..]);
    AddRemove(ToMap(a[1..]), a[0].0, a[0].1);
  }

  lemma NonEmptyMap<T>(a: seq<(Text, T)>)
    ensures |a| == 0 <==> ToMap(a) == map[]
  {
    if |a| > 0 {
      assert a[0].0 in ToMap(a);
    }
  }

  /** A strictly sorted list is determined by the map it stands for. */
  lemma {:induction false} SortedUnique<T>(a: seq<(Text, T)>, b: seq<(Text, T)>)
    requires SortedByKey(a) && SortedByKey(b)
    requires ToMap(a) == ToMap(b)
    ensures a == b
  {
    if |a| == 0 || |b| == 0 {
      NonEmptyMap(a);
      NonEmptyMap(b);
    } else {
      HeadsAgree(a, b);
      SortedDistinct(a);
      SortedDistinct(b);
      TailMap(a);
      TailMap(b);
      SortedUnique(a[1..], b[1..]);
      assert a == [a[0]] + a[1..];
      assert b == [b[0]] + b[1..];
    }
  }

  // --- The normal form ------------------------------------------------------------

  function NormalItems(items: seq<Value>): (r: seq<Value>)
    ensures |r| == |items|
    ensures forall i :: 0 <= i < |items| ==> r[i] == Normal(items[i])
    decreases items, 0
  {
    if |items| == 0 then [] else [Normal(items[0])] + NormalItems(items[1..])
  }

  /** The entries an object keeps, in the order they were written. */
  function NormalEntries(entries: seq<(Text, Value)>): seq<(Text, Value)>
    decreases entries, 0
  {
    if |entries| == 0 then []
    else if entries[0].1.Undefined? then NormalEntries(entries[1..])
    else
      var e := entries[0];
      assert e.1 < e;
      [(e.0, Normal(e.1))] + NormalEntries(entries[1..])
  }

  function Normal(v: Value): Value
    decreases v, 1
  {
    if Nullish(v) then Null
    else
      match v
      case Number(n) => if n.Zero? then Number(Zero(false)) else v
      case Arr(items) => Arr(NormalItems(items))
      case Obj(entries) => Obj(SortByKey(NormalEntries(entries)))
      case _ => v
  }

  lemma {:induction false} NormalEntriesMap(entries: seq<(Text, Value)>)
    requires DistinctKeys(entries)
    ensures DistinctKeys(NormalEntries(entries))
    ensures forall k :: k in ToMap(NormalEntries(entries)) <==> At(entries, k).Some?
    ensures forall k :: At(entries, k).Some? ==> ToMap(NormalEntries(entries))[k] == Normal(At(entries, k).value)
    ensures forall k :: At(entries, k).Some? ==> exists i :: 0 <= i < |entries| && entries[i].0 == k
  {
    if |entries| > 0 {
      var tail := entries[1..];
      NormalEntriesMap(tail);
      ToMapKeys(NormalEntries(tail));
      forall k | At(tail, k).Some? ensures exists i :: 0 <= i < |entries| && entries[i].0 == k {
        var i :| 0 <= i < |tail| && tail[i].0 == k;
        assert entries[i + 1].0 == k;
      }
      if !entries[0].1.Undefined? {
        assert At(tail, entries[0].0).None?;
        var rest := NormalEntries(tail);
        forall j | 0 <= j < |rest| ensures rest[j].0 != entries[0].0 {
          assert rest[j].0 in ToMap(rest);
        }
      }
    }
  }

  lemma {:induction false} AtEntry(entries: seq<(Text, Value)>, i: nat)
    requires DistinctKeys(entries)
    requires i < |entries| && !entries[i].1.Undefined?
    ensures At(entries, entries[i].0) == Some(entries[i].1)
  {
    if i > 0 {
      assert entries[1..][i - 1] == entries[i];
      AtEntry(entries[1..], i - 1);
    }
  }

  lemma {:induction false} AtIndex(entries: seq<(Text, Value)>, key: Text) returns (i: nat)
    requires At(entries, key).Some?
    ensures i < |entries| && entries[i].0 == key && !entries[i].1.Undefined? && At(entries, key).value == entries[i].1
  {
    if entries[0].0 == key && !entries[0].1.Undefined? {
      i := 0;
    } else {
      i := AtIndex(entries[1..], key);
      i := i + 1;
    }
  }

  /** The normal form decides structural equality. */
  lemma {:induction false} NormalDecidesSame(v: Value, w: Value)
    requires WellFormed(v) && WellFormed(w)
    ensures Normal(v) == Normal(w) <==> Same(v, w)
    decreases v
  {
    if v.Arr? && w.Arr? {
      NormalDecidesSameItems(v, w);
    } else if v.Obj? && w.Obj? {
      NormalDecidesSameEntries(v, w);
    }
  }

  lemma {:induction false} NormalDecidesSameItems(v: Value, w: Value)
    requires WellFormed(v) && WellFormed(w)
    requires v.Arr? && w.Arr?
    ensures Normal(v) == Normal(w) <==> Same(v, w)
    decreases v, 0
  {
    if |v.items| == |w.items| {
      forall i | 0 <= i < |v.items|
        ensures Normal(v.items[i]) == Normal(w.items[i]) <==> Same(v.items[i], w.items[i])
      {
        NormalDecidesSame(v.items[i], w.items[i]);
      }
      if Normal(v) == Normal(w) {
        forall i | 0 <= i < |v.items| ensures Same(v.items[i], w.items[i]) {
          assert NormalItems(v.items)[i] == NormalItems(w.items)[i];
        }
      }
      if Same(v, w) {
        assert NormalItems(v.items) == NormalItems(w.items);
      }
    } else {
      assert |NormalItems(v.items)| != |NormalItems(w.items)|;
    }
  }

  lemma {:induction false} NormalDecidesSameEntries(v: Value, w: Value)
    requires WellFormed(v) && WellFormed(w)
    requires v.Obj? && w.Obj?
    ensures Normal(v) == Normal(w) <==> Same(v, w)
    decreases v, 0
  {
    var es, fs := v.entries, w.entries;
    var m, n := ToMap(NormalEntries(es)), ToMap(NormalEntries(fs));
    NormalEntriesMap(es);
    NormalEntriesMap(fs);
    SortIsSorted(NormalEntries(es));
    SortIsSorted(NormalEntries(fs));
    if m == n {
      SortedUnique(SortByKey(NormalEntries(es)), SortByKey(NormalEntries(fs)));
    }
    assert Normal(v) == Normal(w) <==> m == n;
    if m == n {
      forall i | 0 <= i < |es| && !es[i].1.Undefined?
        ensures At(fs, es[i].0).Some? && Same(es[i].1, At(fs, es[i].0).value)
      {
        AtEntry(es, i);
        assert es[i].0 in m;
        var j := AtIndex(fs, es[i].0);
        NormalDecidesSame(es[i].1, fs[j].1);
      }
      forall j | 0 <= j < |fs| && !fs[j].1.Undefined? ensures At(es, fs[j].0).Some? {
        AtEntry(fs, j);
        assert fs[j].0 in n;
      }
    }
    if Same(v, w) {
      forall k ensures (k in m <==> k in n) && (k in m ==> m[k] == n[k]) {
        if k in m {
          var i := AtIndex(es, k);
          var j := AtIndex(fs, k);
          NormalDecidesSame(es[i].1, fs[j].1);
        }
        if k in n {
          var j := AtIndex(fs, k);
        }
      }
    }
  }
}
