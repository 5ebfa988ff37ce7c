/**
 * `celLeavesOf`: the `!cel` leaves of a resource at or beneath a place.
 */
module CelLeaves {
  import opened PathText
  import opened Prelude

  /**
   * A value of a resource: a `!cel` sentinel, another tag's, an array or an object. A value
   * the loader compiled in place of a sentinel carries the sentinel's marks, so it is read
   * as that sentinel. `Scalar` is any value with nothing inside it.
   */
  datatype Data =
    | Scalar
    | Cel
    | OtherTag
    | List(items: seq<Data>)
    | Map(entries: seq<(string, Data)>)

  /** `String(key)` */
  function KeyText(k: Key): string {
    match k
    case Name(name) => name
    case Index(index) => Decimal(index)
  }

  /** `prefix` is `keys` or above it. */
  predicate IsAtOrAbove(prefix: Path, keys: Path) {
    |prefix| <= |keys| && forall i :: 0 <= i < |prefix| ==> KeyText(prefix[i]) == KeyText(keys[i])
  }

  /** `value[key]`, in an array. */
  function ItemAt(items: seq<Data>, key: string, i: nat): (r: Option<Data>)
    requires i <= |items|
    ensures r.Some? ==> r.value in items
  {
    if i == 0 then None
    else if Decimal(i - 1) == key then Some(items[i - 1])
    else ItemAt(items, key, i - 1)
  }

  /** `value[key]`, in an object. */
  function EntryAt(entries: seq<(string, Data)>, key: string, i: nat): (r: Option<Data>)
    requires i <= |entries|
    ensures r.Some? ==> exists j :: 0 <= j < |entries| && r.value == entries[j].1
  {
    if i == 0 then None
    else if entries[i - 1].0 == key then Some(entries[i - 1].1)
    else EntryAt(entries, key, i - 1)
  }

  function ChildAt(d: Data, key: Key): (r: Option<Data>)
    ensures r.Some? ==> r.value < d
  {
    match d
    case List(items) => ItemAt(items, KeyText(key), |items|)
    case Map(entries) =>
      var child := EntryAt(entries, KeyText(key), |entries|);
      assert child.Some? ==> exists j :: 0 <= j < |entries| && child.value == entries[j].1 && entries[j] in entries;
      child
    case _ => None
  }

  // --- The leaves of a value ---------------------------------------------------------------------

  /** Every `!cel` leaf of the value at `keys`. */
  function Leaves(d: Data, keys: Path): seq<Path>
    decreases d, 1, 0
  {
    match d
    case Cel => [keys]
    case List(items) => ItemLeaves(d, keys, |items|)
    case Map(entries) => EntryLeaves(d, keys, |entries|)
    case _ => []
  }

  function ItemLeaves(d: Data, keys: Path, i: nat): seq<Path>
    requires d.List? && i <= |d.items|
    decreases d, 0, i
  {
    if i == 0 then [] else ItemLeaves(d, keys, i - 1) + Leaves(d.items[i - 1], keys + [Index(i - 1)])
  }

  function EntryLeaves(d: Data, keys: Path, i: nat): seq<Path>
    requires d.Map? && i <= |d.entries|
    decreases d, 0, i
  {
    if i == 0 then []
    else
      var e := d.entries[i - 1];
      assert e in d.entries && e.1 < e;
      EntryLeaves(d, keys, i - 1) + Leaves(e.1, keys + [Name(e.0)])
  }

  /** The value at a path, along containers. */
  function ValueAt(d: Data, keys: Path): Option<Data>
    decreases |keys|
  {
    if |keys| == 0 then Some(d)
    else if ChildAt(d, keys[0]).None? then None
    else ValueAt(ChildAt(d, keys[0]).value, keys[1..])
  }

  /** The leaves at or beneath a place are those of the value there. */
  function LeavesAt(d: Data, at: Path): seq<Path> {
    match ValueAt(d, at)
    case None => []
    case Some(value) => Leaves(value, at)
  }

  /** What the walk has still to find: first along `at`, then everything beneath. */
  function LeavesFrom(d: Data, at: Path, keys: Path): seq<Path> {
    if |keys| <= |at| then (match ValueAt(d, at[|keys|..]) case None => [] case Some(value) => Leaves(value, at))
    else Leaves(d, keys)
  }

  class LeafWalker {
    const at: Path
    var out: seq<Path>

    constructor (at: Path)
      ensures this.at == at && out == []
    {
      this.at, out := at, [];
    }

    method Visit(value: Data, keys: Path)
      requires if |keys| <= |at| then keys == at[..|keys|] else IsAtOrAbove(at, keys)
      modifies this`out
      ensures out == old(out) + LeavesFrom(value, at, keys)
      decreases value
    {
      assert at[|at|..] == [];
      if |keys| < |at| {
        assert at[|keys|..][0] == at[|keys|] && at[|keys|..][1..] == at[|keys| + 1..];
      } else {
        assert |keys| == |at| ==> keys == at;
        assert LeavesFrom(value, at, keys) == Leaves(value, keys);
      }
      match value {
        case Cel =>
          if IsAtOrAbove(at, keys) {
            out := out + [keys];
          }
        case List(items) =>
          if |keys| < |at| {
            VisitOn(value, keys);
          } else {
            ghost var before := out;
            for i := 0 to |items|
              invariant out == before + ItemLeaves(value, keys, i)
            {
              Visit(items[i], keys + [Index(i)]);
              Regroup3(before, ItemLeaves(value, keys, i), Leaves(items[i], keys + [Index(i)]));
            }
          }
        case Map(entries) =>
          if |keys| < |at| {
            VisitOn(value, keys);
          } else {
            ghost var before := out;
            for i := 0 to |entries|
              invariant out == before + EntryLeaves(value, keys, i)
            {
              var e := entries[i];
              assert e in entries && e.1 < e;
              Visit(e.1, keys + [Name(e.0)]);
              Regroup3(before, EntryLeaves(value, keys, i), Leaves(e.1, keys + [Name(e.0)]));
            }
          }
        case _ =>
      }
    }

    /** One key further along `at`. */
    method VisitOn(value: Data, keys: Path)
      requires |keys| < |at| && keys == at[..|keys|]
      modifies this`out
      ensures out == old(out) + LeavesFrom(value, at, keys)
      decreases value, 0
    {
      var key := at[|keys|];
      var child := ChildAt(value, key);
      assert at[|keys|..][0] == key && at[|keys|..][1..] == at[|keys| + 1..];
      if child.Some? {
        assert keys + [key] == at[..|keys| + 1];
        Visit(child.value, keys + [key]);
      }
    }
  }

  /** Every `!cel` leaf of a holder at or beneath `at`. */
  method CelLeavesOf(holder: Data, at: Path) returns (out: seq<Path>)
    ensures out == LeavesAt(holder, at)
  {
    var walker := new LeafWalker(at);
    walker.Visit(holder, []);
    assert at[0..] == at;
    out := walker.out;
  }

  // --- What the leaves are ----------------------------------------------------------------------

  /** A `!cel` leaf at the end of a path of own keys. */
  ghost predicate CelAt(d: Data, rest: Path)
    decreases |rest|
  {
    match d
    case Cel => rest == []
    case List(items) => |rest| > 0 && rest[0].Index? && rest[0].index < |items|
        && CelAt(items[rest[0].index], rest[1..])
    case Map(entries) =>
      |rest| > 0 && rest[0].Name? && exists j ::
          0 <= j < |entries| && entries[j].0 == rest[0].name && CelAt(entries[j].1, rest[1..])
    case _ => false
  }

  /** The leaves found are the `!cel` values at every depth, and nothing else. */
  lemma {:induction false} LeavesExact(d: Data, keys: Path, p: Path)
    ensures p in Leaves(d, keys) <==> keys <= p && CelAt(d, p[|keys|..])
    decreases d, 1, 0
  {
    match d
    case Cel =>
      if keys <= p && p[|keys|..] == [] {
        assert p == keys;
      }
    case List(items) =>
      ItemLeavesExact(d, keys, |items|, p);
    case Map(entries) =>
      EntryLeavesExact(d, keys, |entries|, p);
    case _ =>
  }

  lemma {:induction false} ItemLeavesExact(d: Data, keys: Path, i: nat, p: Path)
    requires d.List? && i <= |d.items|
    ensures p in ItemLeaves(d, keys, i) <==>
            (keys < p && p[|keys|].Index? && p[|keys|].index < i && CelAt(d.items[p[|keys|].index], p[|keys| + 1..]))
    decreases d, 0, i
  {
    if i > 0 {
      ItemLeavesExact(d, keys, i - 1, p);
      LeavesExact(d.items[i - 1], keys + [Index(i - 1)], p);
      StepBegins(keys, Index(i - 1), p);
    }
  }

  lemma {:induction false} EntryLeavesExact(d: Data, keys: Path, i: nat, p: Path)
    requires d.Map? && i <= |d.entries|
    ensures p in EntryLeaves(d, keys, i) <==>
            (keys < p && p[|keys|].Name?
             && exists j :: 0 <= j < i && d.entries[j].0 == p[|keys|].name && CelAt(d.entries[j].1, p[|keys| + 1..]))
    decreases d, 0, i
  {
    if i > 0 {
      var e := d.entries[i - 1];
      assert e in d.entries && e.1 < e;
      EntryLeavesExact(d, keys, i - 1, p);
      LeavesExact(e.1, keys + [Name(e.0)], p);
      StepBegins(keys, Name(e.0), p);
    }
  }

  lemma StepBegins(keys: Path, k: Key, p: Path)
    ensures keys + [k] <= p <==> keys < p && p[|keys|] == k
    ensures |keys + [k]| == |keys| + 1
  {
    if keys < p && p[|keys|] == k {
      assert p[..|keys| + 1] == keys + [k];
    }
  }

  // --- The place ----------------------------------------------------------------------------------

  /** Item `i` is written with the key; of entries with one key the last counts. */
  ghost predicate ChildAs(d: Data, key: string, i: nat, child: Data) {
    match d
    case List(items) => i < |items| && Decimal(i) == key && items[i] == child
    case Map(entries) =>
      i < |entries| && entries[i] == (key, child) && forall j :: i < j < |entries| ==> entries[j].0 != key
    case _ => false
  }

  lemma {:induction false} ItemExactly(items: seq<Data>, key: string, n: nat, i: nat)
    requires i < n <= |items| && Decimal(i) == key
    ensures ItemAt(items, key, n) == Some(items[i])
  {
    if i < n - 1 {
      if Decimal(n - 1) == key {
        DecimalInjective(i, n - 1);
      }
      ItemExactly(items, key, n - 1, i);
    }
  }

  lemma {:induction false} ItemThere(items: seq<Data>, key: string, n: nat) returns (i: nat)
    requires n <= |items| && ItemAt(items, key, n).Some?
    ensures i < n && Decimal(i) == key && ItemAt(items, key, n) == Some(items[i])
  {
    i := n - 1;
    if Decimal(n - 1) != key {
      i := ItemThere(items, key, n - 1);
    }
  }

  lemma {:induction false} EntryExactly(entries: seq<(string, Data)>, key: string, n: nat, i: nat)
    requires i < n <= |entries| && entries[i].0 == key && forall j :: i < j < n ==> entries[j].0 != key
    ensures EntryAt(entries, key, n) == Some(entries[i].1)
  {
    if i < n - 1 {
      EntryExactly(entries, key, n - 1, i);
    }
  }

  lemma {:induction false} EntryThere(entries: seq<(string, Data)>, key: string, n: nat) returns (i: nat)
    requires n <= |entries| && EntryAt(entries, key, n).Some?
    ensures i < n && entries[i].0 == key && EntryAt(entries, key, n) == Some(entries[i].1)
    ensures forall j :: i < j < n ==> entries[j].0 != key
  {
    i := n - 1;
    if entries[n - 1].0 != key {
      i := EntryThere(entries, key, n - 1);
    }
  }

  lemma ChildExactly(d: Data, key: Key, child: Data)
    ensures ChildAt(d, key) == Some(child) <==> exists i: nat :: ChildAs(d, KeyText(key), i, child)
  {
    match d
    case List(items) =>
      if ItemAt(items, KeyText(key), |items|) == Some(child) {
        var i := ItemThere(items, KeyText(key), |items|);
        assert ChildAs(d, KeyText(key), i, child);
      }
      if i: nat :| ChildAs(d, KeyText(key), i, child) {
        ItemExactly(items, KeyText(key), |items|, i);
      }
    case Map(entries) =>
      if EntryAt(entries, KeyText(key), |entries|) == Some(child) {
        var i := EntryThere(entries, KeyText(key), |entries|);
        assert ChildAs(d, KeyText(key), i, child);
      }
      if i: nat :| ChildAs(d, KeyText(key), i, child) {
        EntryExactly(entries, KeyText(key), |entries|, i);
      }
    case _ =>
  }

  /** The value at the end of a path, each key naming an item or an entry of the value before. */
  ghost predicate StandsAt(d: Data, at: Path, value: Data)
    decreases |at|
  {
    if |at| == 0 then value == d
    else exists i: nat, child :: ChildAs(d, KeyText(at[0]), i, child) && StandsAt(child, at[1..], value)
  }

  lemma {:induction false} PlaceExactly(d: Data, at: Path, value: Data)
    ensures ValueAt(d, at) == Some(value) <==> StandsAt(d, at, value)
    decreases |at|
  {
    if |at| > 0 {
      if ValueAt(d, at) == Some(value) {
        var child := ChildAt(d, at[0]).value;
        ChildExactly(d, at[0], child);
        PlaceExactly(child, at[1..], value);
        var i: nat :| ChildAs(d, KeyText(at[0]), i, child);
      }
      if StandsAt(d, at, value) {
        var i: nat, child :| ChildAs(d, KeyText(at[0]), i, child) && StandsAt(child, at[1..], value);
        ChildExactly(d, at[0], child);
        PlaceExactly(child, at[1..], value);
      }
    }
  }

  /** The leaves at or beneath a place are the `!cel` values at the ends of paths of own keys from the value there. */
  lemma LeavesAtExactly(d: Data, at: Path, p: Path)
    ensures p in LeavesAt(d, at) <==>
            at <= p && exists value :: StandsAt(d, at, value) && CelAt(value, p[|at|..])
  {
    forall value ensures ValueAt(d, at) == Some(value) <==> StandsAt(d, at, value) {
      PlaceExactly(d, at, value);
    }
    if ValueAt(d, at).Some? {
      LeavesExact(ValueAt(d, at).value, at, p);
    }
  }
}
