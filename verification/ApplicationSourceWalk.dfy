/**
 * `applicationSourceCandidates`: every literal source reachable in a set of manifests,
 * found by a walk that enters each object once, on graphs that may share and cycle.
 */
module ApplicationSourceWalk {
  import opened ObjectGraph
  import opened Prelude

  /** What the walk goes on to from an object: an array's items, a plain object's values. */
  function Inner(o: Obj): seq<Val> {
    match o
    case List(items) => items
    case Record(plain, _, entries) => if plain then Values(entries) else []
  }

  /** An item of an array, or a value of a plain object; nothing is within an instance of a class. */
  ghost predicate Contains(o: Obj, v: Val) {
    match o
    case List(items) => exists i :: 0 <= i < |items| && items[i] == v
    case Record(plain, _, entries) => plain && exists i :: 0 <= i < |entries| && entries[i].1 == v
  }

  lemma InnerExactly(o: Obj, v: Val)
    ensures v in Inner(o) <==> Contains(o, v)
  {
    if o.Record? && o.plain && Contains(o, v) {
      var i :| 0 <= i < |o.entries| && o.entries[i].1 == v;
      assert Inner(o)[i] == v;
    }
  }

  /** Objects each of which is within the one before. */
  ghost predicate Trail(h: Heap, t: seq<Id>) {
    && (forall i :: 0 <= i < |t| ==> t[i] in h)
    && forall i {:trigger t[i + 1]} :: 0 <= i && i + 1 < |t| ==> Contains(h[t[i]], Ref(t[i + 1]))
  }

  ghost predicate TrailFrom(h: Heap, v: Val, t: seq<Id>, id: Id) {
    |t| > 0 && v == Ref(t[0]) && t[|t| - 1] == id && Trail(h, t)
  }

  /** An object the walk can come to from a value. */
  ghost predicate Reaches(h: Heap, v: Val, id: Id) {
    exists t :: TrailFrom(h, v, t, id)
  }

  lemma ReachesItself(h: Heap, id: Id)
    requires id in h
    ensures Reaches(h, Ref(id), id)
  {
    assert TrailFrom(h, Ref(id), [id], id);
  }

  lemma ReachesThrough(h: Heap, id: Id, v: Val, goal: Id)
    requires id in h && v in Inner(h[id]) && Reaches(h, v, goal)
    ensures Reaches(h, Ref(id), goal)
  {
    InnerExactly(h[id], v);
    var t :| TrailFrom(h, v, t, goal);
    var longer := [id] + t;
    forall i | 0 <= i && i + 1 < |longer| ensures Contains(h[longer[i]], Ref(longer[i + 1])) {
      if i == 0 {
        assert longer[0] == id && longer[1] == t[0];
      } else {
        var j := i - 1;
        assert longer[i] == t[j] && longer[i + 1] == t[j + 1];
      }
    }
    assert TrailFrom(h, Ref(id), longer, goal);
  }

  /** The next objects from one object are all in a set. */
  ghost predicate EntersOnly(h: Heap, id: Id, ids: set<Id>) {
    id in h && forall v :: v in Inner(h[id]) && v.Ref? ==> v.id in ids
  }

  /** A set closed under the walk holds everything reachable from it. */
  lemma {:induction false} ClosedReaches(h: Heap, ids: set<Id>, t: seq<Id>)
    requires forall id :: id in ids ==> EntersOnly(h, id, ids)
    requires |t| > 0 && t[0] in ids && Trail(h, t)
    ensures t[|t| - 1] in ids
  {
    if |t| > 1 {
      var init := t[..|t| - 1];
      assert forall i {:trigger init[i + 1]} :: 0 <= i && i + 1 < |init| ==> init[i] == t[i] && init[i + 1] == t[i + 1];
      ClosedReaches(h, ids, init);
      var last := |t| - 2;
      assert init[|init| - 1] == t[last] && Contains(h[t[last]], Ref(t[last + 1]));
      InnerExactly(h[t[last]], Ref(t[last + 1]));
      assert EntersOnly(h, t[last], ids);
    }
  }

  /** The source written in an object: the string its kind's annotated field holds. */
  function SourceAt(h: Heap, fieldOf: string -> Option<string>, id: Id): Option<string>
    requires id in h
  {
    var o := h[id];
    if !IsPlain(h, Ref(id)) || !Get(o, "kind").Text? then None
    else
      match fieldOf(Get(o, "kind").text)
      case None => None
      case Some(field) =>
        var source := Get(o, field);
        if source.Text? && source.text != "" then Some(source.text) else None
  }

  /** A plain object writes a source: a text that is not empty, in the field its kind is annotated with. */
  ghost predicate WritesSource(h: Heap, fieldOf: string -> Option<string>, id: Id, source: string) {
    && id in h && h[id].Record? && h[id].plain && source != ""
    && exists kind, field ::
         Get(h[id], "kind") == Text(kind) && fieldOf(kind) == Some(field) && Get(h[id], field) == Text(source)
  }

  lemma SourceExactly(h: Heap, fieldOf: string -> Option<string>, id: Id, source: string)
    requires id in h
    ensures SourceAt(h, fieldOf, id) == Some(source) <==> WritesSource(h, fieldOf, id, source)
  {
  }

  ghost function SourcesOf(h: Heap, fieldOf: string -> Option<string>, ids: set<Id>): set<string> {
    set id | id in ids && id in h && SourceAt(h, fieldOf, id).Some? :: SourceAt(h, fieldOf, id).value
  }

  ghost predicate ReachesAny(h: Heap, roots: seq<Val>, id: Id) {
    exists i :: 0 <= i < |roots| && Reaches(h, roots[i], id)
  }

  /** What a walk of `roots` entered: only objects it can come to, and from each all there is to enter. */
  ghost predicate Spread(h: Heap, roots: seq<Val>, before: set<Id>, after: set<Id>) {
    && before <= after <= h.Keys
    && (forall id :: id in after - before ==> ReachesAny(h, roots, id) && EntersOnly(h, id, after))
    && (forall i :: 0 <= i < |roots| && roots[i].Ref? ==> roots[i].id in after)
  }

  lemma SpreadNode(h: Heap, id: Id, before: set<Id>, after: set<Id>)
    requires id in h && id !in before && Spread(h, Inner(h[id]), before + {id}, after)
    ensures Spread(h, [Ref(id)], before, after)
  {
    var roots := [Ref(id)];
    forall x | x in after - before ensures ReachesAny(h, roots, x) && EntersOnly(h, x, after) {
      if x == id {
        ReachesItself(h, id);
      } else {
        assert x in after - (before + {id}) && ReachesAny(h, Inner(h[id]), x);
        var i :| 0 <= i < |Inner(h[id])| && Reaches(h, Inner(h[id])[i], x);
        ReachesThrough(h, id, Inner(h[id])[i], x);
      }
      assert Reaches(h, roots[0], x);
    }
  }

  lemma SpreadNext(h: Heap, roots: seq<Val>, i: nat, before: set<Id>, mid: set<Id>, after: set<Id>)
    requires i < |roots|
    requires Spread(h, roots[..i], before, mid) && Spread(h, [roots[i]], mid, after)
    ensures Spread(h, roots[..i + 1], before, after)
  {
    var more := roots[..i + 1];
    assert more == roots[..i] + [roots[i]];
    forall x | x in after - before ensures ReachesAny(h, more, x) && EntersOnly(h, x, after) {
      if x in mid {
        assert x in mid - before && ReachesAny(h, roots[..i], x) && EntersOnly(h, x, mid);
        var j :| 0 <= j < |roots[..i]| && Reaches(h, roots[..i][j], x);
        assert more[j] == roots[..i][j];
      } else {
        assert x in after - mid && ReachesAny(h, [roots[i]], x);
        assert Reaches(h, more[i], x);
      }
    }
    forall j | 0 <= j < |more| && more[j].Ref? ensures more[j].id in after {
      assert j < i ==> more[j] == roots[..i][j];
      assert j == i ==> more[j] == [roots[i]][0];
    }
  }

  lemma SourcesJoin(h: Heap, fieldOf: string -> Option<string>, before: set<Id>, mid: set<Id>, after: set<Id>)
    requires before <= mid <= after
    ensures SourcesOf(h, fieldOf, after - before) ==
        SourcesOf(h, fieldOf, mid - before) + SourcesOf(h, fieldOf, after - mid)
  {
    assert after - before == (mid - before) + (after - mid);
  }

  class SourceFinder {
    const h: Heap
    const fieldOf: string -> Option<string>
    var out: set<string>
    var seen: set<Id>

    constructor (h: Heap, fieldOf: string -> Option<string>)
      ensures this.h == h && this.fieldOf == fieldOf
      ensures out == {} && seen == {}
    {
      this.h, this.fieldOf := h, fieldOf;
      out, seen := {}, {};
    }

    /** Enters an object once; what is written there is taken before what is within. */
    method Visit(node: Val)
      requires Closed(h) && Fits(h, node) && seen <= h.Keys
      modifies this
      ensures Spread(h, [node], old(seen), seen)
      ensures out == old(out) + SourcesOf(h, fieldOf, seen - old(seen))
      decreases h.Keys - seen, 0
    {
      if !node.Ref? || node.id in seen {
        return;
      }
      var id := node.id;
      seen := seen + {id};
      if IsPlain(h, node) {
        var source := SourceAt(h, fieldOf, id);
        if source.Some? {
          out := out + {source.value};
        }
      }
      ghost var entered, noted := seen, out;
      assert noted == old(out) + SourcesOf(h, fieldOf, entered - old(seen));
      forall v | v in Inner(h[id]) ensures Fits(h, v) {
        HeldFits(h, id, v);
      }
      VisitAll(Inner(h[id]));
      SpreadNode(h, id, old(seen), seen);
      SourcesJoin(h, fieldOf, old(seen), entered, seen);
    }

    method VisitAll(values: seq<Val>)
      requires Closed(h) && seen <= h.Keys
      requires forall v :: v in values ==> Fits(h, v)
      modifies this
      ensures Spread(h, values, old(seen), seen)
      ensures out == old(out) + SourcesOf(h, fieldOf, seen - old(seen))
      decreases h.Keys - seen, 1
    {
      for i := 0 to |values|
        invariant Spread(h, values[..i], old(seen), seen)
        invariant out == old(out) + SourcesOf(h, fieldOf, seen - old(seen))
      {
        ghost var mid := seen;
        Visit(values[i]);
        SpreadNext(h, values, i, old(seen), mid, seen);
        SourcesJoin(h, fieldOf, old(seen), mid, seen);
      }
      assert values[..|values|] == values;
    }
  }

  /** The sources found are those written in the objects reachable from the manifests. */
  method ApplicationSourceCandidates(h: Heap, manifests: seq<Val>, fieldOf: string -> Option<string>)
    returns (out: set<string>)
    requires Closed(h) && forall v :: v in manifests ==> Fits(h, v)
    ensures forall source :: source in out <==>
              exists id :: ReachesAny(h, manifests, id) && WritesSource(h, fieldOf, id, source)
  {
    var finder := new SourceFinder(h, fieldOf);
    finder.VisitAll(manifests);
    out := finder.out;
    SeenExactly(h, manifests, finder.seen);
    forall source ensures source in out <==>
        exists id :: ReachesAny(h, manifests, id) && WritesSource(h, fieldOf, id, source) {
      FoundExactly(h, manifests, fieldOf, finder.seen, source);
    }
  }

  lemma FoundExactly(h: Heap, roots: seq<Val>, fieldOf: string -> Option<string>, seen: set<Id>, source: string)
    requires seen <= h.Keys && forall id :: id in seen <==> ReachesAny(h, roots, id)
    ensures source in SourcesOf(h, fieldOf, seen) <==>
            exists id :: ReachesAny(h, roots, id) && WritesSource(h, fieldOf, id, source)
  {
    if source in SourcesOf(h, fieldOf, seen) {
      var id :| id in seen && id in h && SourceAt(h, fieldOf, id) == Some(source);
      SourceExactly(h, fieldOf, id, source);
    }
    if id :| ReachesAny(h, roots, id) && WritesSource(h, fieldOf, id, source) {
      assert id in seen;
      SourceExactly(h, fieldOf, id, source);
    }
  }

  /** The objects entered from nothing are exactly the reachable ones. */
  lemma SeenExactly(h: Heap, roots: seq<Val>, seen: set<Id>)
    requires Spread(h, roots, {}, seen)
    ensures forall id :: id in seen <==> ReachesAny(h, roots, id)
  {
    forall id | ReachesAny(h, roots, id) ensures id in seen {
      var i :| 0 <= i < |roots| && Reaches(h, roots[i], id);
      var t :| TrailFrom(h, roots[i], t, id);
      ClosedReaches(h, seen, t);
    }
  }

  // --- A source inside a list, by example ------------------------------------------------------------

  /** `{ items: [ { kind: "k", source: "./child" } ] }` */
  function ListedChild(): Heap {
    map[
      0 := Record(true, true, [("items", Ref(1))]),
      1 := List([Ref(2)]),
      2 := Record(true, true, [("kind", Text("k")), ("source", Text("./child"))])
    ]
  }

  function KindField(): string -> Option<string> {
    (kind: string) => if kind == "k" then Some("source") else None
  }

  lemma ChildReached()
    ensures ReachesAny(ListedChild(), [Ref(0)], 2)
  {
    var h, t := ListedChild(), [0, 1, 2];
    assert h[0].entries[0].1 == Ref(1) && h[1].items[0] == Ref(2);
    assert Contains(h[0], Ref(1)) && Contains(h[1], Ref(2));
    assert TrailFrom(h, Ref(0), t, 2);
    assert Reaches(h, [Ref(0)][0], 2);
  }

  lemma ChildWritten(id: Id, source: string)
    ensures WritesSource(ListedChild(), KindField(), id, source) <==> id == 2 && source == "./child"
  {
    var h := ListedChild();
    assert "source" != "kind" by {
      assert |"source"| != |"kind"|;
    }
    assert FirstWith(h[2].entries, "kind", 0) && FirstWith(h[2].entries, "source", 1);
    GetExactly(h[2], "kind");
    GetExactly(h[2], "source");
    assert "items" != "kind" by {
      assert |"items"| != |"kind"|;
    }
    GetExactly(h[0], "kind");
  }

  method FindListedChild() returns (out: set<string>)
    ensures out == {"./child"}
  {
    assert forall id :: id in ListedChild() ==> Whole(ListedChild(), id);
    out := ApplicationSourceCandidates(ListedChild(), [Ref(0)], KindField());
    ChildReached();
    forall source ensures source in out <==> source == "./child" {
      ChildWritten(2, source);
      if id :| ReachesAny(ListedChild(), [Ref(0)], id) && WritesSource(ListedChild(), KindField(), id, source) {
        ChildWritten(id, source);
      }
    }
  }
}
