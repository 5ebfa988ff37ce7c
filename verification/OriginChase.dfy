/**
 * `loopBindingsAtPath`: a path inside an extracted declaration is carried back, through
 * the entries it was extracted from, until a place with loop bindings is found. The
 * chase is bounded by the number of entries; the bound is exact on acyclic origins.
 */
module OriginChase {
  import opened PathText
  import opened Prelude

  /** What an extracted entry records of the entry it was extracted from. */
  datatype Origin = Origin(parentName: Option<string>, keysFromParent: Option<Path>)

  /** An entry of a definition's `resources`; a missing one has neither part. */
  datatype Entry = Entry(name: Option<string>, origin: Option<Origin>)

  const RESOURCES := Name("resources")

  /** A path that starts at an entry: `resources[i]...`. */
  predicate AtEntry(keys: Path) {
    |keys| >= 2 && keys[0] == RESOURCES && keys[1].Index?
  }

  function FindName(entries: seq<Entry>, name: Option<string>): (r: Option<nat>)
    ensures r.Some? ==> r.value < |entries| && entries[r.value].name == name
    ensures r.Some? ==> forall j :: 0 <= j < r.value ==> entries[j].name != name
    ensures r.None? ==> forall j :: 0 <= j < |entries| ==> entries[j].name != name
  {
    if |entries| == 0 then None
    else if entries[0].name == name then Some(0)
    else
      var later := FindName(entries[1..], name);
      if later.None? then None else Some(later.value + 1)
  }

  /** Where entry `i` was extracted from. */
  predicate HasOrigin(entries: seq<Entry>, i: nat) {
    i < |entries| && entries[i].origin.Some? && entries[i].origin.value.keysFromParent.Some?
  }

  function Parent(entries: seq<Entry>, i: nat): (r: Option<nat>)
    ensures r.Some? ==> HasOrigin(entries, i) && r.value < |entries|
  {
    if HasOrigin(entries, i) then FindName(entries, entries[i].origin.value.parentName) else None
  }

  // --- The chase ------------------------------------------------------------------------

  /** One round: the path in the parent, or nothing to chase. */
  function Round(entries: seq<Entry>, keys: Path): Option<Path> {
    if !AtEntry(keys) || Parent(entries, keys[1].index).None? then None
    else
      var i := keys[1].index;
      Some([RESOURCES, Index(Parent(entries, i).value)] + entries[i].origin.value.keysFromParent.value + keys[2..])
  }

  /** Entry `p` is the first with the name that entry `i` says it was extracted from, at the keys `from`. */
  ghost predicate ExtractedFrom(entries: seq<Entry>, i: nat, p: nat, from: Path) {
    && i < |entries| && p < |entries|
    && entries[i].origin == Some(Origin(entries[p].name, Some(from)))
    && forall j :: 0 <= j < p ==> entries[j].name != entries[p].name
  }

  lemma ParentExactly(entries: seq<Entry>, i: nat, p: nat)
    ensures Parent(entries, i) == Some(p) <==> exists from :: ExtractedFrom(entries, i, p, from)
  {
    if Parent(entries, i) == Some(p) {
      assert ExtractedFrom(entries, i, p, entries[i].origin.value.keysFromParent.value);
    }
  }

  /** The path at entry `p` where a path at entry `i` was written. */
  ghost predicate WrittenAt(entries: seq<Entry>, keys: Path, next: Path, i: nat, p: nat, from: Path, rest: Path) {
    && keys == [Name("resources"), Index(i)] + rest && ExtractedFrom(entries, i, p, from)
    && next == [Name("resources"), Index(p)] + from + rest
  }

  /** One round carries a path to the place its declaration was written, and stops where there is none. */
  lemma RoundExactly(entries: seq<Entry>, keys: Path, next: Path)
    ensures Round(entries, keys) == Some(next) <==>
            exists i: nat, p: nat, from, rest :: WrittenAt(entries, keys, next, i, p, from, rest)
  {
    if Round(entries, keys) == Some(next) {
      var i, rest := keys[1].index, keys[2..];
      ParentExactly(entries, i, Parent(entries, i).value);
      assert keys == [Name("resources"), Index(i)] + rest;
      assert WrittenAt(entries, keys, next, i, Parent(entries, i).value, entries[i].origin.value.keysFromParent.value,
          rest);
    }
    if i: nat, p: nat, from, rest :| WrittenAt(entries, keys, next, i, p, from, rest) {
      ParentExactly(entries, i, p);
      assert keys[2..] == rest;
    }
  }

  /** A declaration written at `items[3]` of the first entry, and extracted into the third. */
  const EXTRACTED: seq<Entry> := [
    Entry(Some("outer"), None), Entry(None, None),
    Entry(Some("inner"), Some(Origin(Some("outer"), Some([Name("items"), Index(3)]))))]

  lemma RoundByExample(rest: Path)
    ensures Round(EXTRACTED, [Name("resources"), Index(2)] + rest) ==
            Some([Name("resources"), Index(0), Name("items"), Index(3)] + rest)
    ensures Round(EXTRACTED, [Name("resources"), Index(0)] + rest).None?
  {
    var from, next := [Name("items"), Index(3)], [Name("resources"), Index(0), Name("items"), Index(3)] + rest;
    assert next == [Name("resources"), Index(0)] + from + rest;
    assert WrittenAt(EXTRACTED, [Name("resources"), Index(2)] + rest, next, 2, 0, from, rest);
    RoundExactly(EXTRACTED, [Name("resources"), Index(2)] + rest, next);
  }

  datatype Outcome<B> = Found(bindings: B) | Stopped | Exhausted

  function Chase<B>(entries: seq<Entry>, bindingsOf: Path -> Option<B>, keys: Path, rounds: nat): Outcome<B>
    decreases rounds
  {
    if rounds == 0 then Exhausted
    else
      var next := Round(entries, keys);
      if next.None? then Stopped
      else
        var found := bindingsOf(next.value);
        if found.Some? then Found(found.value) else Chase(entries, bindingsOf, next.value, rounds - 1)
  }

  method LoopBindingsAtPath<B>(bindingsAt: string -> Option<B>, pathText: Path -> string, parseKeys: string -> Path,
                               entries: seq<Entry>, path: string)
    returns (r: Option<B>)
    ensures bindingsAt(path).Some? ==> r == bindingsAt(path)
    ensures bindingsAt(path).None? ==>
              var outcome := Chase(entries, p => bindingsAt(pathText(p)), parseKeys(path), |entries| + 1);
              r == if outcome.Found? then Some(outcome.bindings) else None
  {
    var direct := bindingsAt(path);
    if direct.Some? {
      return direct;
    }
    var keys := parseKeys(path);
    ghost var bindingsOf := p => bindingsAt(pathText(p));
    ghost var whole := Chase(entries, bindingsOf, keys, |entries| + 1);
    for guard := 0 to |entries| + 1
      invariant whole == Chase(entries, bindingsOf, keys, |entries| + 1 - guard)
    {
      if |keys| < 2 || keys[0] != Name("resources") || !keys[1].Index? {
        return None;
      }
      var from := keys[1].index;
      if from >= |entries| || entries[from].origin.None? || entries[from].origin.value.keysFromParent.None? {
        return None;
      }
      var origin := entries[from].origin.value;
      var parent := FindName(entries, origin.parentName);
      if parent.None? {
        return None;
      }
      keys := [Name("resources"), Index(parent.value)] + origin.keysFromParent.value + keys[2..];
      var found := bindingsAt(pathText(keys));
      if found.Some? {
        return found;
      }
    }
    return None;
  }

  // --- Ancestors ------------------------------------------------------------------------

  /** The entry `n` extractions above entry `i`. */
  function Ancestor(entries: seq<Entry>, i: nat, n: nat): Option<nat>
    decreases n
  {
    if n == 0 then Some(i)
    else
      var parent := Parent(entries, i);
      if parent.None? then None else Ancestor(entries, parent.value, n - 1)
  }

  /** The keys from the `n`-th ancestor of entry `i` down to it. */
  function Trail(entries: seq<Entry>, i: nat, n: nat): Path
    requires Ancestor(entries, i, n).Some?
    decreases n
  {
    if n == 0 then []
    else Trail(entries, Parent(entries, i).value, n - 1) + entries[i].origin.value.keysFromParent.value
  }

  /** The place of a path at entry `i` as seen from its `n`-th ancestor. */
  function CarriedBack(entries: seq<Entry>, keys: Path, n: nat): Path
    requires AtEntry(keys) && Ancestor(entries, keys[1].index, n).Some?
  {
    [RESOURCES, Index(Ancestor(entries, keys[1].index, n).value)] + Trail(entries, keys[1].index, n) + keys[2..]
  }

  predicate FoundAt<B>(entries: seq<Entry>, bindingsOf: Path -> Option<B>, keys: Path, n: nat)
    requires AtEntry(keys)
  {
    Ancestor(entries, keys[1].index, n).Some? && bindingsOf(CarriedBack(entries, keys, n)).Some?
  }

  /** The nearest ancestor above `keys` at which there are bindings is the `n`-th. */
  ghost predicate NearestAt<B>(entries: seq<Entry>, bindingsOf: Path -> Option<B>, keys: Path, n: nat)
    requires AtEntry(keys)
  {
    && 0 < n && FoundAt(entries, bindingsOf, keys, n)
    && forall m: nat :: 0 < m < n ==> !FoundAt(entries, bindingsOf, keys, m)
  }

  lemma RoundCarries(entries: seq<Entry>, keys: Path, n: nat)
    requires AtEntry(keys) && Round(entries, keys).Some?
    ensures
      var next := Round(entries, keys).value;
      && AtEntry(next)
      && Ancestor(entries, next[1].index, n) == Ancestor(entries, keys[1].index, n + 1)
      && (Ancestor(entries, keys[1].index, n + 1).Some? ==>
          CarriedBack(entries, next, n) == CarriedBack(entries, keys, n + 1))
  {
    var i := keys[1].index;
    var next := Round(entries, keys).value;
    var parent := Parent(entries, i).value;
    var from := entries[i].origin.value.keysFromParent.value;
    assert next[2..] == from + keys[2..];
    if Ancestor(entries, i, n + 1).Some? {
      Regroup4([RESOURCES, Index(Ancestor(entries, i, n + 1).value)], Trail(entries, parent, n), from, keys[2..]);
      var head := [RESOURCES, Index(Ancestor(entries, i, n + 1).value)];
      Regroup3(head, Trail(entries, parent, n), from);
      Regroup3(head, Trail(entries, parent, n), from + keys[2..]);
    }
  }

  lemma NearestNext<B>(entries: seq<Entry>, bindingsOf: Path -> Option<B>, keys: Path, n: nat)
    requires AtEntry(keys) && Round(entries, keys).Some?
    ensures
      var next := Round(entries, keys).value;
      && AtEntry(next)
      && (FoundAt(entries, bindingsOf, keys, n + 1) <==> FoundAt(entries, bindingsOf, next, n))
      && (FoundAt(entries, bindingsOf, keys, n + 1) ==>
            bindingsOf(CarriedBack(entries, keys, n + 1)) == bindingsOf(CarriedBack(entries, next, n)))
  {
    RoundCarries(entries, keys, n);
  }

  lemma NextIsFirst<B>(entries: seq<Entry>, bindingsOf: Path -> Option<B>, keys: Path)
    requires AtEntry(keys) && Round(entries, keys).Some?
    ensures FoundAt(entries, bindingsOf, keys, 1) <==> bindingsOf(Round(entries, keys).value).Some?
    ensures CarriedBack(entries, keys, 1) == Round(entries, keys).value
  {
    var next := Round(entries, keys).value;
    RoundCarries(entries, keys, 0);
    assert CarriedBack(entries, next, 0) == next by {
      assert next == next[..2] + next[2..];
      assert [RESOURCES, Index(next[1].index)] + [] == next[..2];
    }
  }

  /** The chase finds the bindings of the nearest ancestor that has any, within its rounds. */
  lemma {:induction false} ChaseFindsNearest<B>(entries: seq<Entry>, bindingsOf: Path -> Option<B>, keys: Path,
          rounds: nat, b: B)
    requires AtEntry(keys)
    ensures Chase(entries, bindingsOf, keys, rounds) == Found(b) <==>
            exists n: nat :: n <= rounds && NearestAt(entries, bindingsOf, keys, n)
                && bindingsOf(CarriedBack(entries, keys, n)) == Some(b)
    decreases rounds
  {
    if rounds > 0 && Round(entries, keys).Some? {
      var next := Round(entries, keys).value;
      NextIsFirst(entries, bindingsOf, keys);
      if bindingsOf(next).Some? {
        assert NearestAt(entries, bindingsOf, keys, 1);
        forall n: nat | NearestAt(entries, bindingsOf, keys, n) ensures n == 1 {
          assert FoundAt(entries, bindingsOf, keys, 1);
        }
      } else {
        RoundCarries(entries, keys, 0);
        ChaseFindsNearest(entries, bindingsOf, next, rounds - 1, b);
        forall n: nat ensures NearestAt(entries, bindingsOf, next, n) <==>
            n > 0 && NearestAt(entries, bindingsOf, keys, n + 1) {
          NearestShifts(entries, bindingsOf, keys, n);
        }
        forall n: nat | NearestAt(entries, bindingsOf, next, n)
          ensures bindingsOf(CarriedBack(entries, keys, n + 1)) == bindingsOf(CarriedBack(entries, next, n))
        {
          NearestNext(entries, bindingsOf, keys, n);
        }
        if Chase(entries, bindingsOf, keys, rounds) == Found(b) {
          var n: nat :| n <= rounds - 1 && NearestAt(entries, bindingsOf, next, n)
              && bindingsOf(CarriedBack(entries, next, n)) == Some(b);
          assert NearestAt(entries, bindingsOf, keys, n + 1);
        }
        if n: nat :|
          n <= rounds && NearestAt(entries, bindingsOf, keys, n) && bindingsOf(CarriedBack(entries, keys, n)) == Some(b)
        {
          assert n != 1;
          assert NearestAt(entries, bindingsOf, next, n - 1);
        }
      }
    } else if rounds > 0 {
      forall n: nat | 0 < n ensures !FoundAt(entries, bindingsOf, keys, n) {
      }
    }
  }

  lemma NearestShifts<B>(entries: seq<Entry>, bindingsOf: Path -> Option<B>, keys: Path, n: nat)
    requires AtEntry(keys) && Round(entries, keys).Some?
    requires bindingsOf(Round(entries, keys).value).None?
    ensures AtEntry(Round(entries, keys).value)
    ensures NearestAt(entries, bindingsOf, Round(entries, keys).value, n) <==>
        n > 0 && NearestAt(entries, bindingsOf, keys, n + 1)
  {
    var next := Round(entries, keys).value;
    NextIsFirst(entries, bindingsOf, keys);
    NearestNext(entries, bindingsOf, keys, n);
    forall m: nat ensures FoundAt(entries, bindingsOf, keys, m + 1) <==> FoundAt(entries, bindingsOf, next, m) {
      NearestNext(entries, bindingsOf, keys, m);
    }
    if NearestAt(entries, bindingsOf, next, n) {
      forall m: nat | 0 < m < n + 1 ensures !FoundAt(entries, bindingsOf, keys, m) {
        if m > 1 {
          assert !FoundAt(entries, bindingsOf, next, m - 1);
        }
      }
    }
    if n > 0 && NearestAt(entries, bindingsOf, keys, n + 1) {
      forall m: nat | 0 < m < n ensures !FoundAt(entries, bindingsOf, next, m) {
        assert !FoundAt(entries, bindingsOf, keys, m + 1);
      }
    }
  }

  // --- The bound ------------------------------------------------------------------------

  /** No entry is its own ancestor on the way up from entry `i`. */
  ghost predicate Acyclic(entries: seq<Entry>, i: nat) {
    forall m: nat, n: nat :: m < n && Ancestor(entries, i, m).Some? && Ancestor(entries, i, n).Some? ==>
      Ancestor(entries, i, m) != Ancestor(entries, i, n)
  }

  lemma {:induction false} ExhaustedClimbs<B>(entries: seq<Entry>, bindingsOf: Path -> Option<B>, keys: Path,
          rounds: nat)
    requires AtEntry(keys)
    requires Chase(entries, bindingsOf, keys, rounds).Exhausted?
    ensures Ancestor(entries, keys[1].index, rounds).Some?
    decreases rounds
  {
    if rounds > 0 {
      RoundCarries(entries, keys, rounds - 1);
      ExhaustedClimbs(entries, bindingsOf, Round(entries, keys).value, rounds - 1);
    }
  }

  lemma {:induction false} AncestorsBelow(entries: seq<Entry>, i: nat, n: nat)
    requires Ancestor(entries, i, n).Some?
    ensures n > 0 ==> Ancestor(entries, i, n).value < |entries|
    ensures forall m: nat :: m <= n ==> Ancestor(entries, i, m).Some?
    decreases n
  {
    if n > 0 {
      var parent := Parent(entries, i).value;
      AncestorsBelow(entries, parent, n - 1);
      forall m: nat | m <= n ensures Ancestor(entries, i, m).Some? {
        if m > 0 {
          assert Ancestor(entries, parent, m - 1).Some?;
        }
      }
    }
  }

  lemma {:induction false} Pigeonhole(s: seq<nat>, bound: nat)
    requires |s| > bound
    requires forall i :: 0 <= i < |s| ==> s[i] < bound
    ensures exists i, j :: 0 <= i < j < |s| && s[i] == s[j]
    decreases bound
  {
    assert 0 <= s[0] < bound;
    if bound > 0 {
      var top := bound - 1;
      if i, j :| 0 <= i < j < |s| && s[i] == top && s[j] == top {
        assert s[i] == s[j];
      } else if k :| 0 <= k < |s| && s[k] == top {
        var t := s[..k] + s[k + 1..];
        Pigeonhole(t, top);
        var i, j :| 0 <= i < j < |t| && t[i] == t[j];
        var a, b := if i < k then i else i + 1, if j < k then j else j + 1;
        assert 0 <= a < b < |s| && s[a] == s[b];
      } else {
        Pigeonhole(s, top);
      }
    }
  }

  /** Climbing once more than there are entries meets some entry twice. */
  lemma ClimbingRepeats(entries: seq<Entry>, i: nat)
    requires Ancestor(entries, i, |entries| + 1).Some?
    ensures !Acyclic(entries, i)
  {
    var n := |entries| + 1;
    AncestorsBelow(entries, i, n);
    var met := seq(n, k requires 0 <= k < n => Ancestor(entries, i, k + 1).value);
    forall k | 0 <= k < n ensures met[k] < |entries| {
      AncestorsBelow(entries, i, k + 1);
    }
    Pigeonhole(met, |entries|);
    var a, b :| 0 <= a < b < n && met[a] == met[b];
    assert Ancestor(entries, i, a + 1) == Ancestor(entries, i, b + 1);
  }

  /** Running out of rounds proves that the origins run in a circle. */
  lemma ExhaustionProvesCycle<B>(entries: seq<Entry>, bindingsOf: Path -> Option<B>, keys: Path)
    requires Chase(entries, bindingsOf, keys, |entries| + 1).Exhausted?
    ensures AtEntry(keys) && !Acyclic(entries, keys[1].index)
  {
    ExhaustedClimbs(entries, bindingsOf, keys, |entries| + 1);
    ClimbingRepeats(entries, keys[1].index);
  }

  lemma {:induction false} MoreRounds<B>(entries: seq<Entry>, bindingsOf: Path -> Option<B>, keys: Path, rounds: nat,
          more: nat)
    requires rounds <= more
    requires !Chase(entries, bindingsOf, keys, rounds).Exhausted?
    ensures Chase(entries, bindingsOf, keys, more) == Chase(entries, bindingsOf, keys, rounds)
    decreases rounds
  {
    var next := Round(entries, keys);
    if next.Some? && bindingsOf(next.value).None? {
      MoreRounds(entries, bindingsOf, next.value, rounds - 1, more - 1);
    }
  }

  /** On acyclic origins the bounded chase answers as one without a bound would. */
  lemma BoundIsComplete<B>(entries: seq<Entry>, bindingsOf: Path -> Option<B>, keys: Path, more: nat)
    requires AtEntry(keys) ==> Acyclic(entries, keys[1].index)
    requires |entries| + 1 <= more
    ensures !Chase(entries, bindingsOf, keys, |entries| + 1).Exhausted?
    ensures Chase(entries, bindingsOf, keys, more) == Chase(entries, bindingsOf, keys, |entries| + 1)
  {
    if Chase(entries, bindingsOf, keys, |entries| + 1).Exhausted? {
      ExhaustionProvesCycle(entries, bindingsOf, keys);
    }
    MoreRounds(entries, bindingsOf, keys, |entries| + 1, more);
  }

  /**
   * With acyclic origins the answer is the bindings of the nearest ancestor that has any,
   * however far up it is.
   */
  lemma AnswersNearest<B>(entries: seq<Entry>, bindingsOf: Path -> Option<B>, keys: Path, b: B)
    requires AtEntry(keys) && Acyclic(entries, keys[1].index)
    ensures Chase(entries, bindingsOf, keys, |entries| + 1) == Found(b) <==>
            exists n: nat :: NearestAt(entries, bindingsOf, keys, n)
                && bindingsOf(CarriedBack(entries, keys, n)) == Some(b)
  {
    ChaseFindsNearest(entries, bindingsOf, keys, |entries| + 1, b);
    if n: nat :| NearestAt(entries, bindingsOf, keys, n) && bindingsOf(CarriedBack(entries, keys, n)) == Some(b) {
      var rounds := if n > |entries| + 1 then n else |entries| + 1;
      ChaseFindsNearest(entries, bindingsOf, keys, rounds, b);
      BoundIsComplete(entries, bindingsOf, keys, rounds);
    }
  }
}
