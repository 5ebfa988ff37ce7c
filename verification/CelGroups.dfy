/**
 * What the slots of several branches are gathered to: at each path, in the order the paths are
 * met, every schema declared there once.
 */
module CelGroups {
  import opened CelLeaves
  import opened CelSlots
  import opened PathText
  import opened Prelude

  // --- One list of slots ----------------------------------------------------------------------------

  /** A slot before `n` declares the schema at the path. */
  ghost predicate DeclaredBefore(slots: seq<Slot>, path: string, s: Schema, n: nat) {
    n <= |slots| && exists j :: 0 <= j < n && slots[j].path == path && OneSchema(slots[j].schema, s)
  }

  ghost predicate OneSchema(a: Schema, b: Schema) {
    exists schema, root, other :: a == Declared(Node(schema, root)) && b == Declared(Node(schema, other))
  }

  /** The slots at a path, each schema where it is met first. */
  ghost function HeldAt(slots: seq<Slot>, path: string, n: nat): seq<Slot>
    requires n <= |slots|
  {
    if n == 0 then []
    else
      var last := slots[n - 1];
      HeldAt(slots, path, n - 1)
      + if last.path == path && !DeclaredBefore(slots, path, last.schema, n - 1) then [last] else []
  }

  ghost predicate PathBefore(slots: seq<Slot>, path: string, n: nat) {
    n <= |slots| && exists j :: 0 <= j < n && slots[j].path == path
  }

  /** The paths, each where it is met first. */
  ghost function PathsOf(slots: seq<Slot>, n: nat): seq<string>
    requires n <= |slots|
  {
    if n == 0 then []
    else PathsOf(slots, n - 1) + if PathBefore(slots, slots[n - 1].path, n - 1) then [] else [slots[n - 1].path]
  }

  ghost predicate GatheredAs(slots: seq<Slot>, n: nat, groups: seq<Group>) {
    && n <= |slots| && |groups| == |PathsOf(slots, n)|
    && forall g :: 0 <= g < |groups| ==>
         groups[g] == Group(PathsOf(slots, n)[g], HeldAt(slots, PathsOf(slots, n)[g], n))
  }

  lemma SameExactly(a: Schema, b: Schema)
    ensures SameSchema(a, b) <==> OneSchema(a, b)
  {
    if SameSchema(a, b) {
      assert a == Declared(Node(a.node.schema, a.node.root)) && b == Declared(Node(a.node.schema, b.node.root));
    }
  }

  lemma {:induction false} PathsMet(slots: seq<Slot>, n: nat, path: string)
    requires n <= |slots|
    ensures path in PathsOf(slots, n) <==> PathBefore(slots, path, n)
  {
    if n > 0 {
      PathsMet(slots, n - 1, path);
      assert PathBefore(slots, path, n) <==> PathBefore(slots, path, n - 1) || slots[n - 1].path == path;
    }
  }

  lemma {:induction false} PathsDistinct(slots: seq<Slot>, n: nat)
    requires n <= |slots|
    ensures forall g, k :: 0 <= g < k < |PathsOf(slots, n)| ==> PathsOf(slots, n)[g] != PathsOf(slots, n)[k]
  {
    if n > 0 {
      PathsDistinct(slots, n - 1);
      PathsMet(slots, n - 1, slots[n - 1].path);
    }
  }

  lemma HeldOn(slots: seq<Slot>, path: string, n: nat, s: Slot)
    requires 0 < n <= |slots|
    ensures AlreadyHeld(HeldAt(slots, path, n), s) <==>
            || AlreadyHeld(HeldAt(slots, path, n - 1), s)
            || (slots[n - 1].path == path && !DeclaredBefore(slots, path, slots[n - 1].schema, n - 1)
                && SameSchema(slots[n - 1].schema, s.schema))
  {
    var before, after := HeldAt(slots, path, n - 1), HeldAt(slots, path, n);
    assert forall i :: 0 <= i < |before| ==> after[i] == before[i];
    if |after| > |before| {
      assert after[|before|] == slots[n - 1];
    }
  }

  /** A schema is held at a path exactly when some slot before declared it there. */
  lemma {:induction false} HeldExactly(slots: seq<Slot>, path: string, n: nat, s: Slot)
    requires n <= |slots|
    ensures AlreadyHeld(HeldAt(slots, path, n), s) <==> DeclaredBefore(slots, path, s.schema, n)
  {
    if n > 0 {
      var last := slots[n - 1];
      HeldExactly(slots, path, n - 1, s);
      HeldOn(slots, path, n, s);
      SameExactly(last.schema, s.schema);
      if last.path == path && OneSchema(last.schema, s.schema) && DeclaredBefore(slots, path, last.schema, n - 1) {
        var j :| 0 <= j < n - 1 && slots[j].path == path && OneSchema(slots[j].schema, last.schema);
        assert OneSchema(slots[j].schema, s.schema);
      }
    }
  }

  // --- Gathering -------------------------------------------------------------------------------------

  lemma HeldElsewhere(slots: seq<Slot>, path: string, n: nat)
    requires 0 < n <= |slots| && slots[n - 1].path != path
    ensures HeldAt(slots, path, n) == HeldAt(slots, path, n - 1)
  {
    AddNothing(HeldAt(slots, path, n - 1));
  }

  lemma {:induction false} HeldNowhere(slots: seq<Slot>, path: string, n: nat)
    requires n <= |slots| && !PathBefore(slots, path, n)
    ensures HeldAt(slots, path, n) == []
  {
    if n > 0 {
      assert slots[n - 1].path != path;
      assert !PathBefore(slots, path, n - 1);
      HeldNowhere(slots, path, n - 1);
      HeldElsewhere(slots, path, n);
    }
  }

  /** A slot changes the group at its path, or adds one behind all. */
  lemma {:induction false} HoldAt(groups: seq<Group>, s: Slot, k: nat)
    requires k <= |groups| && (k < |groups| ==> groups[k].path == s.path)
    requires forall g :: 0 <= g < |groups| && g != k ==> groups[g].path != s.path
    ensures Hold(groups, s) ==
            if k == |groups| then groups + [Group(s.path, [s])]
            else if AlreadyHeld(groups[k].held, s) then groups
            else groups[k := Group(s.path, groups[k].held + [s])]
  {
    if k > 0 {
      var rest := groups[1..];
      HoldAt(rest, s, k - 1);
      assert groups == [groups[0]] + rest;
      assert groups[0].path != s.path;
    }
  }

  /** A slot at a path met before joins its group, unless its schema is held there. */
  lemma GatherKnown(slots: seq<Slot>, n: nat, groups: seq<Group>)
    requires n < |slots| && GatheredAs(slots, n, groups) && PathBefore(slots, slots[n].path, n)
    ensures GatheredAs(slots, n + 1, Hold(groups, slots[n]))
  {
    var s, paths := slots[n], PathsOf(slots, n);
    PathsMet(slots, n, s.path);
    PathsDistinct(slots, n);
    HeldExactly(slots, s.path, n, s);
    var k :| 0 <= k < |paths| && paths[k] == s.path;
    HoldAt(groups, s, k);
    AddNothing(paths);
    AddNothing(groups[k].held);
    forall g | 0 <= g < |paths| ensures Hold(groups, s)[g] == Group(paths[g], HeldAt(slots, paths[g], n + 1)) {
      if g != k {
        HeldElsewhere(slots, paths[g], n + 1);
      }
    }
  }

  /** A slot at a new path is a group of its own. */
  lemma GatherNew(slots: seq<Slot>, n: nat, groups: seq<Group>)
    requires n < |slots| && GatheredAs(slots, n, groups) && !PathBefore(slots, slots[n].path, n)
    ensures GatheredAs(slots, n + 1, Hold(groups, slots[n]))
  {
    var s, paths := slots[n], PathsOf(slots, n);
    PathsMet(slots, n, s.path);
    HeldNowhere(slots, s.path, n);
    HeldExactly(slots, s.path, n, s);
    HoldAt(groups, s, |groups|);
    forall g | 0 <= g < |paths| ensures HeldAt(slots, paths[g], n + 1) == HeldAt(slots, paths[g], n) {
      HeldElsewhere(slots, paths[g], n + 1);
    }
  }

  lemma {:induction false} GatherAll(slots: seq<Slot>, n: nat)
    requires n <= |slots|
    ensures GatheredAs(slots, n, HoldAll([], slots, n))
  {
    if n > 0 {
      GatherAll(slots, n - 1);
      if PathBefore(slots, slots[n - 1].path, n - 1) {
        GatherKnown(slots, n - 1, HoldAll([], slots, n - 1));
      } else {
        GatherNew(slots, n - 1, HoldAll([], slots, n - 1));
      }
    }
  }

  // --- Under a union ---------------------------------------------------------------------------------

  /** The slots of the first `i` branches, one branch after the other. */
  ghost function BranchSlots(r: Reader, d: Data, raw: Node, path: string, i: nat): seq<Slot>
    requires r.Ranked() && i <= |Branches(r, d, raw)|
  {
    if i == 0 then [] else BranchSlots(r, d, raw, path, i - 1) + Slots(r, d, Branches(r, d, raw)[i - 1], path)
  }

  lemma {:induction false} HoldBoth(a: seq<Slot>, b: seq<Slot>, n: nat)
    requires n <= |b|
    ensures HoldAll([], a + b, |a| + n) == HoldAll(HoldAll([], a, |a|), b, n)
  {
    if n == 0 {
      HoldFirst(a, b, |a|);
    } else {
      HoldBoth(a, b, n - 1);
      assert (a + b)[|a| + n - 1] == b[n - 1];
    }
  }

  lemma {:induction false} HoldFirst(a: seq<Slot>, b: seq<Slot>, n: nat)
    requires n <= |a|
    ensures HoldAll([], a + b, n) == HoldAll([], a, n)
  {
    if n > 0 {
      HoldFirst(a, b, n - 1);
    }
  }

  lemma BranchNext(r: Reader, d: Data, raw: Node, path: string, i: nat)
    requires r.Ranked() && i < |Branches(r, d, raw)|
    ensures var slots := Slots(r, d, Branches(r, d, raw)[i], path);
            && BranchSlots(r, d, raw, path, i + 1) == BranchSlots(r, d, raw, path, i) + slots
            && BranchGroups(r, d, raw, path, i + 1) == HoldAll(BranchGroups(r, d, raw, path, i), slots, |slots|)
  {
  }

  lemma {:induction false} GatheredNext(all: seq<Slot>, more: seq<Slot>, slots: seq<Slot>, groups: seq<Group>)
    requires all == slots + more && groups == HoldAll([], slots, |slots|)
    ensures HoldAll(groups, more, |more|) == HoldAll([], all, |all|)
  {
    HoldBoth(slots, more, |more|);
  }

  lemma BranchGathered(r: Reader, d: Data, raw: Node, path: string, i: nat)
    requires r.Ranked() && i < |Branches(r, d, raw)|
    requires var all := BranchSlots(r, d, raw, path, i); BranchGroups(r, d, raw, path, i) == HoldAll([], all, |all|)
    ensures var all := BranchSlots(r, d, raw, path, i + 1);
            BranchGroups(r, d, raw, path, i + 1) == HoldAll([], all, |all|)
  {
    BranchNext(r, d, raw, path, i);
    GatheredNext(BranchSlots(r, d, raw, path, i + 1), Slots(r, d, Branches(r, d, raw)[i], path),
        BranchSlots(r, d, raw, path, i), BranchGroups(r, d, raw, path, i));
  }

  lemma BranchesGathered(r: Reader, d: Data, raw: Node, path: string, n: nat)
    requires r.Ranked() && n <= |Branches(r, d, raw)|
    ensures var all := BranchSlots(r, d, raw, path, n); BranchGroups(r, d, raw, path, n) == HoldAll([], all, |all|)
  {
    for i := 0 to n
      invariant var all := BranchSlots(r, d, raw, path, i); BranchGroups(r, d, raw, path, i) == HoldAll([], all, |all|)
    {
      BranchGathered(r, d, raw, path, i);
    }
  }

  /** What a schema is in a union: the shape a declaration names. */
  ghost predicate NamedAs(s: Schema, shape: Schema) {
    match s
    case Declared(node) => shape == Shape(node)
    case _ => shape == s
  }

  /** A path's slot: the one held there, or the union of the shapes of all. */
  ghost predicate JoinedAs(held: seq<Slot>, path: string, s: Slot) {
    if |held| == 1 then s == held[0]
    else
      && s.path == path && s.schema.AnyOf? && |s.schema.shapes| == |held|
      && forall i :: 0 <= i < |held| ==> NamedAs(held[i].schema, s.schema.shapes[i])
  }

  lemma {:induction false} JoinedThere(groups: seq<Group>, n: nat, i: nat)
    requires i < n <= |groups|
    ensures |JoinedUpTo(groups, n)| == n && JoinedAs(groups[i].held, groups[i].path, JoinedUpTo(groups, n)[i])
  {
    if n > 1 {
      JoinedThere(groups, n - 1, if i < n - 1 then i else 0);
    }
  }

  lemma {:induction false} JoinedCount(groups: seq<Group>, n: nat)
    requires n <= |groups|
    ensures |JoinedUpTo(groups, n)| == n
  {
    if n > 0 {
      JoinedCount(groups, n - 1);
    }
  }

  /**
   * Under an ambiguous union there is one slot for each path at which a branch has one, in the order
   * the paths are met; it joins what is declared there, each schema once, in the order it is met.
   */
  lemma UnionExactly(r: Reader, d: Data, raw: Node, path: string)
    requires r.Ranked() && Branches(r, d, raw) != []
    ensures var all, slots := BranchSlots(r, d, raw, path, |Branches(r, d, raw)|), Slots(r, d, raw, path);
            var paths := PathsOf(all, |all|);
            && |slots| == |paths|
            && forall k :: 0 <= k < |paths| ==> JoinedAs(HeldAt(all, paths[k], |all|), paths[k], slots[k])
  {
    var n := |Branches(r, d, raw)|;
    var all, groups := BranchSlots(r, d, raw, path, n), BranchGroups(r, d, raw, path, n);
    BranchesGathered(r, d, raw, path, n);
    GatherAll(all, |all|);
    JoinedCount(groups, |groups|);
    assert Slots(r, d, raw, path) == JoinedUpTo(groups, |groups|);
    forall k | 0 <= k < |groups| ensures JoinedAs(groups[k].held, groups[k].path, Slots(r, d, raw, path)[k]) {
      JoinedThere(groups, |groups|, k);
    }
  }
}
