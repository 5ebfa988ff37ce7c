/**
 * What a slot's schema holds a `!cel` leaf to: every declaration of its place, and, under
 * an ambiguous union, what any fitting branch declares there and nothing else.
 */
module CelUnions {
  import opened CelLeaves
  import opened CelSlots
  import opened PathText
  import opened Prelude

  predicate Alike(a: Schema, b: Schema) {
    a == b || SameSchema(a, b)
  }

  // --- Under an ambiguous union --------------------------------------------------------------------

  ghost predicate InGroup(g: Group, s: Slot) {
    g.path == s.path && exists i :: 0 <= i < |g.held| && Alike(g.held[i].schema, s.schema)
  }

  /** The groups hold a slot's schema at its path. */
  ghost predicate HeldAt(groups: seq<Group>, s: Slot) {
    exists i :: 0 <= i < |groups| && InGroup(groups[i], s)
  }

  lemma HeldLater(first: Group, rest: seq<Group>, s: Slot)
    requires HeldAt(rest, s)
    ensures HeldAt([first] + rest, s)
  {
    var i :| 0 <= i < |rest| && InGroup(rest[i], s);
    assert ([first] + rest)[i + 1] == rest[i];
  }

  lemma {:induction false} HoldTakes(groups: seq<Group>, s: Slot)
    ensures HeldAt(Hold(groups, s), s)
  {
    var next := Hold(groups, s);
    if |groups| == 0 {
      assert next[0].held[0] == s && InGroup(next[0], s);
    } else if groups[0].path != s.path {
      HoldTakes(groups[1..], s);
      HeldLater(groups[0], Hold(groups[1..], s), s);
    } else if AlreadyHeld(groups[0].held, s) {
      assert InGroup(next[0], s);
    } else {
      assert next[0].held[|groups[0].held|] == s && InGroup(next[0], s);
    }
  }

  lemma {:induction false} HoldKeeps(groups: seq<Group>, s: Slot, t: Slot)
    requires HeldAt(groups, t)
    ensures HeldAt(Hold(groups, s), t)
  {
    var i :| 0 <= i < |groups| && InGroup(groups[i], t);
    if groups[0].path != s.path {
      if i == 0 {
        assert Hold(groups, s)[0] == groups[0];
      } else {
        assert groups[1..][i - 1] == groups[i];
        HoldKeeps(groups[1..], s, t);
        HeldLater(groups[0], Hold(groups[1..], s), t);
      }
    } else if !AlreadyHeld(groups[0].held, s) {
      var next := Hold(groups, s);
      if i == 0 {
        var k :| 0 <= k < |groups[0].held| && Alike(groups[0].held[k].schema, t.schema);
        assert next[0].held[k] == groups[0].held[k];
      } else {
        assert next[i] == groups[i];
      }
    }
  }

  lemma {:induction false} HoldAllKeeps(groups: seq<Group>, slots: seq<Slot>, n: nat, t: Slot)
    requires n <= |slots|
    requires HeldAt(groups, t) || t in slots[..n]
    ensures HeldAt(HoldAll(groups, slots, n), t)
  {
    if n > 0 {
      assert slots[..n] == slots[..n - 1] + [slots[n - 1]];
      if HeldAt(groups, t) || t in slots[..n - 1] {
        HoldAllKeeps(groups, slots, n - 1, t);
        HoldKeeps(HoldAll(groups, slots, n - 1), slots[n - 1], t);
      } else {
        HoldTakes(HoldAll(groups, slots, n - 1), t);
      }
    }
  }

  lemma {:induction false} BranchHeld(r: Reader, d: Data, raw: Node, path: string, i: nat, j: nat, t: Slot)
    requires r.Ranked() && j < i <= |Branches(r, d, raw)|
    requires t in Slots(r, d, Branches(r, d, raw)[j], path)
    ensures HeldAt(BranchGroups(r, d, raw, path, i), t)
  {
    var slots := Slots(r, d, Branches(r, d, raw)[i - 1], path);
    if j < i - 1 {
      BranchHeld(r, d, raw, path, i - 1, j, t);
    } else {
      assert slots[..|slots|] == slots;
    }
    HoldAllKeeps(BranchGroups(r, d, raw, path, i - 1), slots, |slots|, t);
  }

  /** A slot's schema accepts what `s` does: it is `s`, or a union with the shape of `s` in it. */
  ghost predicate Admits(joined: Schema, s: Schema) {
    Alike(joined, s) || (joined.AnyOf? && exists i :: 0 <= i < |joined.shapes| && ShapeOf(joined.shapes[i], s))
  }

  ghost predicate ShapeOf(shape: Schema, s: Schema) {
    exists like {:trigger Named(like)} :: Alike(like, s) && shape == Named(like)
  }

  lemma {:induction false} JoinedAt(groups: seq<Group>, n: nat, i: nat)
    requires i < n <= |groups|
    ensures |JoinedUpTo(groups, n)| == n && JoinedUpTo(groups, n)[i] == Joined(groups[i])
  {
    if n > 1 {
      JoinedAt(groups, n - 1, if i < n - 1 then i else 0);
    }
  }

  lemma JoinedAdmits(g: Group, k: nat, t: Schema)
    requires k < |g.held| && Alike(g.held[k].schema, t)
    ensures Admits(Joined(g).schema, t)
  {
    if |g.held| > 1 {
      var like := g.held[k].schema;
      assert Joined(g).schema.shapes[k] == Named(like);
      assert ShapeOf(Joined(g).schema.shapes[k], t);
    }
  }

  lemma JoinedPath(g: Group)
    requires forall k :: 0 <= k < |g.held| ==> g.held[k].path == g.path
    ensures Joined(g).path == g.path
  {
  }

  /** A leaf is refused by a joined slot only where no branch's declaration accepts it. */
  lemma EveryBranchHeld(r: Reader, d: Data, raw: Node, path: string, j: nat, t: Slot) returns (s: Slot)
    requires r.Ranked() && j < |Branches(r, d, raw)|
    requires t in Slots(r, d, Branches(r, d, raw)[j], path)
    ensures s in Slots(r, d, raw, path) && s.path == t.path && Admits(s.schema, t.schema)
  {
    var n := |Branches(r, d, raw)|;
    var groups := BranchGroups(r, d, raw, path, n);
    BranchHeld(r, d, raw, path, n, j, t);
    s := HeldJoined(groups, t, r, d, raw, path, n);
    assert Slots(r, d, raw, path) == JoinedUpTo(groups, |groups|);
  }

  lemma HeldJoined(groups: seq<Group>, t: Slot, r: Reader, d: Data, raw: Node, path: string, n: nat) returns (s: Slot)
    requires r.Ranked() && n <= |Branches(r, d, raw)| && groups == BranchGroups(r, d, raw, path, n)
    requires HeldAt(groups, t)
    ensures s in JoinedUpTo(groups, |groups|) && s.path == t.path && Admits(s.schema, t.schema)
  {
    var i :| 0 <= i < |groups| && InGroup(groups[i], t);
    var k :| 0 <= k < |groups[i].held| && Alike(groups[i].held[k].schema, t.schema);
    JoinedAt(groups, |groups|, i);
    JoinedAdmits(groups[i], k, t.schema);
    BranchesGather(r, d, raw, path, n);
    assert FromBranch(r, d, raw, path, n, groups[i]);
    JoinedPath(groups[i]);
    s := Joined(groups[i]);
  }

  /** No group is empty. */
  ghost predicate GroupsHold(groups: seq<Group>) {
    forall i :: 0 <= i < |groups| ==> |groups[i].held| > 0
  }

  lemma {:induction false} HoldHolds(groups: seq<Group>, s: Slot)
    requires GroupsHold(groups)
    ensures GroupsHold(Hold(groups, s))
  {
    if |groups| > 0 && groups[0].path != s.path {
      assert GroupsHold(groups[1..]);
      HoldHolds(groups[1..], s);
    }
  }

  lemma HoldAllHolds(groups: seq<Group>, slots: seq<Slot>)
    requires GroupsHold(groups)
    ensures GroupsHold(HoldAll(groups, slots, |slots|))
  {
    for n := 0 to |slots|
      invariant GroupsHold(HoldAll(groups, slots, n))
    {
      HoldHolds(HoldAll(groups, slots, n), slots[n]);
    }
  }

  lemma BranchesHold(r: Reader, d: Data, raw: Node, path: string)
    requires r.Ranked()
    ensures GroupsHold(BranchGroups(r, d, raw, path, |Branches(r, d, raw)|))
  {
    for i := 0 to |Branches(r, d, raw)|
      invariant GroupsHold(BranchGroups(r, d, raw, path, i))
    {
      HoldAllHolds(BranchGroups(r, d, raw, path, i), Slots(r, d, Branches(r, d, raw)[i], path));
    }
  }

  // --- Nothing else --------------------------------------------------------------------------------

  /** Each slot held at a group was found by a branch, at the group's path. */
  ghost predicate FromBranch(r: Reader, d: Data, raw: Node, path: string, i: nat, g: Group)
    requires r.Ranked() && i <= |Branches(r, d, raw)|
  {
    forall k :: 0 <= k < |g.held| ==> g.held[k].path == g.path && FoundBy(r, d, raw, path, i, g.held[k])
  }

  ghost predicate FoundBy(r: Reader, d: Data, raw: Node, path: string, i: nat, s: Slot)
    requires r.Ranked() && i <= |Branches(r, d, raw)|
  {
    exists j :: 0 <= j < i && s in Slots(r, d, Branches(r, d, raw)[j], path)
  }

  ghost predicate AllFromBranches(r: Reader, d: Data, raw: Node, path: string, i: nat, groups: seq<Group>)
    requires r.Ranked() && i <= |Branches(r, d, raw)|
  {
    forall m :: 0 <= m < |groups| ==> FromBranch(r, d, raw, path, i, groups[m])
  }

  lemma {:induction false} HoldFrom(r: Reader, d: Data, raw: Node, path: string, i: nat, groups: seq<Group>, s: Slot)
    requires r.Ranked() && i <= |Branches(r, d, raw)|
    requires AllFromBranches(r, d, raw, path, i, groups) && FoundBy(r, d, raw, path, i, s)
    ensures AllFromBranches(r, d, raw, path, i, Hold(groups, s))
  {
    if |groups| > 0 {
      var rest := groups[1..];
      assert forall m :: 0 <= m < |rest| ==> rest[m] == groups[m + 1];
      assert FromBranch(r, d, raw, path, i, groups[0]);
      if groups[0].path != s.path {
        HoldFrom(r, d, raw, path, i, rest, s);
      }
    }
  }

  lemma {:induction false} HoldAllFrom(r: Reader, d: Data, raw: Node, path: string, i: nat, groups: seq<Group>,
          slots: seq<Slot>, n: nat)
    requires r.Ranked() && i <= |Branches(r, d, raw)| && n <= |slots|
    requires AllFromBranches(r, d, raw, path, i, groups)
    requires forall s :: s in slots ==> FoundBy(r, d, raw, path, i, s)
    ensures AllFromBranches(r, d, raw, path, i, HoldAll(groups, slots, n))
  {
    if n > 0 {
      HoldAllFrom(r, d, raw, path, i, groups, slots, n - 1);
      HoldFrom(r, d, raw, path, i, HoldAll(groups, slots, n - 1), slots[n - 1]);
    }
  }

  lemma {:induction false} BranchesGather(r: Reader, d: Data, raw: Node, path: string, i: nat)
    requires r.Ranked() && i <= |Branches(r, d, raw)|
    ensures AllFromBranches(r, d, raw, path, i, BranchGroups(r, d, raw, path, i))
  {
    if i > 0 {
      BranchesGather(r, d, raw, path, i - 1);
      var before := BranchGroups(r, d, raw, path, i - 1);
      forall m | 0 <= m < |before| ensures FromBranch(r, d, raw, path, i, before[m]) {
        assert FromBranch(r, d, raw, path, i - 1, before[m]);
      }
      var slots := Slots(r, d, Branches(r, d, raw)[i - 1], path);
      HoldAllFrom(r, d, raw, path, i, before, slots, |slots|);
    }
  }

  /** A joined slot at a path accepts nothing but what some branch declares there. */
  lemma OnlyBranchesHeld(r: Reader, d: Data, raw: Node, path: string, s: Slot)
    requires r.Ranked() && Branches(r, d, raw) != [] && s in Slots(r, d, raw, path)
    ensures FoundBy(r, d, raw, path, |Branches(r, d, raw)|, s) ||
            (s.schema.AnyOf? && forall i :: 0 <= i < |s.schema.shapes| ==>
               ShapeFound(r, d, raw, path, s.path, s.schema.shapes[i]))
  {
    var n := |Branches(r, d, raw)|;
    var groups := BranchGroups(r, d, raw, path, n);
    assert Slots(r, d, raw, path) == JoinedUpTo(groups, |groups|);
    var i := JoinedFrom(groups, |groups|, s);
    BranchesGather(r, d, raw, path, n);
    var g := groups[i];
    assert FromBranch(r, d, raw, path, n, g);
    if |g.held| == 1 {
      assert FoundBy(r, d, raw, path, n, g.held[0]);
    } else {
      forall k | 0 <= k < |g.held| ensures ShapeFound(r, d, raw, path, g.path, NamedAll(g.held)[k]) {
        assert FoundBy(r, d, raw, path, n, g.held[k]) && Named(g.held[k].schema) == NamedAll(g.held)[k];
      }
    }
  }

  ghost predicate ShapeFound(r: Reader, d: Data, raw: Node, path: string, at: string, shape: Schema)
    requires r.Ranked()
  {
    exists t: Slot :: FoundBy(r, d, raw, path, |Branches(r, d, raw)|, t) && t.path == at && Named(t.schema) == shape
  }

  lemma {:induction false} JoinedFrom(groups: seq<Group>, n: nat, s: Slot) returns (i: nat)
    requires n <= |groups| && s in JoinedUpTo(groups, n)
    ensures i < |groups| && s == Joined(groups[i])
  {
    i := n - 1;
    if s in JoinedUpTo(groups, n - 1) {
      i := JoinedFrom(groups, n - 1, s);
    }
  }

  /** A joined slot is at the path of a slot of some branch. */
  lemma BranchSlotAt(r: Reader, d: Data, raw: Node, path: string, s: Slot) returns (j: nat, t: Slot)
    requires r.Ranked() && Branches(r, d, raw) != [] && s in Slots(r, d, raw, path)
    ensures j < |Branches(r, d, raw)| && t in Slots(r, d, Branches(r, d, raw)[j], path) && t.path == s.path
  {
    var n := |Branches(r, d, raw)|;
    var groups := BranchGroups(r, d, raw, path, n);
    assert Slots(r, d, raw, path) == JoinedUpTo(groups, |groups|);
    var i := JoinedFrom(groups, |groups|, s);
    BranchesHold(r, d, raw, path);
    BranchesGather(r, d, raw, path, n);
    assert FromBranch(r, d, raw, path, n, groups[i]);
    JoinedPath(groups[i]);
    t := groups[i].held[0];
    assert FoundBy(r, d, raw, path, n, t);
    j :| 0 <= j < n && t in Slots(r, d, Branches(r, d, raw)[j], path);
  }

  // --- Under declared children -----------------------------------------------------------------------

  lemma {:induction false} ChildInto(r: Reader, d: Data, child: Data, declared: seq<Node>, path: string, i: nat, k: nat,
          s: Slot)
    requires r.Ranked() && child < d && k < i <= |declared| && s in Slots(r, child, declared[k], path)
    ensures s in ChildSlots(r, d, child, declared, path, i)
  {
    if k < i - 1 {
      ChildInto(r, d, child, declared, path, i - 1, k, s);
    }
  }

  lemma {:induction false} ChildFrom(r: Reader, d: Data, child: Data, declared: seq<Node>, path: string, i: nat,
          s: Slot)
    returns (k: nat)
    requires r.Ranked() && child < d && i <= |declared| && s in ChildSlots(r, d, child, declared, path, i)
    ensures k < i && s in Slots(r, child, declared[k], path)
  {
    k := i - 1;
    if s in ChildSlots(r, d, child, declared, path, i - 1) {
      k := ChildFrom(r, d, child, declared, path, i - 1, s);
    }
  }

  /** The first `n` parts, one after the other. */
  function Flatten(parts: seq<seq<Slot>>, n: nat): seq<Slot>
    requires n <= |parts|
  {
    if n == 0 then [] else Flatten(parts, n - 1) + parts[n - 1]
  }

  lemma {:induction false} FlattenInto(parts: seq<seq<Slot>>, n: nat, j: nat, s: Slot)
    requires j < n <= |parts| && s in parts[j]
    ensures s in Flatten(parts, n)
  {
    if j < n - 1 {
      FlattenInto(parts, n - 1, j, s);
    }
  }

  lemma {:induction false} FlattenFrom(parts: seq<seq<Slot>>, n: nat, s: Slot) returns (j: nat)
    requires n <= |parts| && s in Flatten(parts, n)
    ensures j < n && s in parts[j]
  {
    j := n - 1;
    if s in Flatten(parts, n - 1) {
      j := FlattenFrom(parts, n - 1, s);
    }
  }

  /** The slots of one item. */
  function SlotsOfItem(r: Reader, d: Data, entered: Node, path: string, j: nat): seq<Slot>
    requires r.Ranked() && d.List? && j < |d.items|
  {
    var readings := ItemReadings(r, entered);
    ChildSlots(r, d, d.items[j], readings, Child(path, Index(j)), |readings|)
  }

  lemma ItemNext(r: Reader, d: Data, entered: Node, path: string, i: nat)
    requires r.Ranked() && d.List? && 0 < i <= |d.items|
    ensures ItemSlots(r, d, entered, path, i) ==
        ItemSlots(r, d, entered, path, i - 1) + SlotsOfItem(r, d, entered, path, i - 1)
  {
  }

  function PartsOfItems(r: Reader, d: Data, entered: Node, path: string): (parts: seq<seq<Slot>>)
    requires r.Ranked() && d.List?
    ensures |parts| == |d.items|
    ensures forall j :: 0 <= j < |parts| ==> parts[j] == SlotsOfItem(r, d, entered, path, j)
  {
    seq(|d.items|, j requires 0 <= j < |d.items| => SlotsOfItem(r, d, entered, path, j))
  }

  lemma ItemsFlatNext(r: Reader, d: Data, entered: Node, path: string, parts: seq<seq<Slot>>, i: nat)
    requires r.Ranked() && d.List? && 0 < i <= |d.items| && |parts| == |d.items|
    requires parts[i - 1] == SlotsOfItem(r, d, entered, path, i - 1)
    requires ItemSlots(r, d, entered, path, i - 1) == Flatten(parts, i - 1)
    ensures ItemSlots(r, d, entered, path, i) == Flatten(parts, i)
  {
    ItemNext(r, d, entered, path, i);
  }

  lemma ItemsFlat(r: Reader, d: Data, entered: Node, path: string, parts: seq<seq<Slot>>)
    requires r.Ranked() && d.List? && |parts| == |d.items|
    requires forall j :: 0 <= j < |parts| ==> parts[j] == SlotsOfItem(r, d, entered, path, j)
    ensures ItemSlots(r, d, entered, path, |d.items|) == Flatten(parts, |d.items|)
  {
    for i := 0 to |d.items|
      invariant ItemSlots(r, d, entered, path, i) == Flatten(parts, i)
    {
      ItemsFlatNext(r, d, entered, path, parts, i + 1);
    }
  }

  /** The slots of one entry. */
  function SlotsOfEntry(r: Reader, d: Data, entered: Node, path: string, j: nat): seq<Slot>
    requires r.Ranked() && d.Map? && j < |d.entries|
  {
    EntrySmaller(d, j);
    var readings := EntryReadings(r, entered, d.entries[j].0);
    ChildSlots(r, d, d.entries[j].1, readings, Child(path, Name(d.entries[j].0)), |readings|)
  }

  lemma EntryNext(r: Reader, d: Data, entered: Node, path: string, i: nat)
    requires r.Ranked() && d.Map? && 0 < i <= |d.entries|
    ensures EntrySlots(r, d, entered, path, i) ==
        EntrySlots(r, d, entered, path, i - 1) + SlotsOfEntry(r, d, entered, path, i - 1)
  {
  }

  function PartsOfEntries(r: Reader, d: Data, entered: Node, path: string): (parts: seq<seq<Slot>>)
    requires r.Ranked() && d.Map?
    ensures |parts| == |d.entries|
    ensures forall j :: 0 <= j < |parts| ==> parts[j] == SlotsOfEntry(r, d, entered, path, j)
  {
    seq(|d.entries|, j requires 0 <= j < |d.entries| => SlotsOfEntry(r, d, entered, path, j))
  }

  lemma EntriesFlatNext(r: Reader, d: Data, entered: Node, path: string, parts: seq<seq<Slot>>, i: nat)
    requires r.Ranked() && d.Map? && 0 < i <= |d.entries| && |parts| == |d.entries|
    requires parts[i - 1] == SlotsOfEntry(r, d, entered, path, i - 1)
    requires EntrySlots(r, d, entered, path, i - 1) == Flatten(parts, i - 1)
    ensures EntrySlots(r, d, entered, path, i) == Flatten(parts, i)
  {
    EntryNext(r, d, entered, path, i);
  }

  lemma EntriesFlat(r: Reader, d: Data, entered: Node, path: string, parts: seq<seq<Slot>>)
    requires r.Ranked() && d.Map? && |parts| == |d.entries|
    requires forall j :: 0 <= j < |parts| ==> parts[j] == SlotsOfEntry(r, d, entered, path, j)
    ensures EntrySlots(r, d, entered, path, |d.entries|) == Flatten(parts, |d.entries|)
  {
    for i := 0 to |d.entries|
      invariant EntrySlots(r, d, entered, path, i) == Flatten(parts, i)
    {
      EntriesFlatNext(r, d, entered, path, parts, i + 1);
    }
  }

  /** Item `j`, under the `k`-th schema declared for it, has the slot. */
  ghost predicate ItemDeclares(r: Reader, d: Data, entered: Node, path: string, j: nat, k: nat, s: Slot)
    requires r.Ranked() && d.List?
  {
    && j < |d.items| && k < |ItemReadings(r, entered)|
    && s in Slots(r, d.items[j], ItemReadings(r, entered)[k], Child(path, Index(j)))
  }

  lemma ItemHeld(r: Reader, d: Data, entered: Node, path: string, j: nat, k: nat, s: Slot)
    requires r.Ranked() && d.List? && ItemDeclares(r, d, entered, path, j, k, s)
    ensures s in ItemSlots(r, d, entered, path, |d.items|)
  {
    var readings := ItemReadings(r, entered);
    ChildInto(r, d, d.items[j], readings, Child(path, Index(j)), |readings|, k, s);
    var parts := PartsOfItems(r, d, entered, path);
    ItemsFlat(r, d, entered, path, parts);
    FlattenInto(parts, |parts|, j, s);
  }

  lemma DeclaredItem(r: Reader, d: Data, entered: Node, path: string, s: Slot) returns (j: nat, k: nat)
    requires r.Ranked() && d.List? && s in ItemSlots(r, d, entered, path, |d.items|)
    ensures ItemDeclares(r, d, entered, path, j, k, s)
  {
    var readings := ItemReadings(r, entered);
    var parts := PartsOfItems(r, d, entered, path);
    ItemsFlat(r, d, entered, path, parts);
    j := FlattenFrom(parts, |parts|, s);
    k := ChildFrom(r, d, d.items[j], readings, Child(path, Index(j)), |readings|, s);
  }

  lemma SlotsOfList(r: Reader, d: Data, raw: Node, path: string)
    requires r.Ranked() && d.List? && Branches(r, d, raw) == []
    ensures Slots(r, d, raw, path) == ItemSlots(r, d, Entered(r, d, raw), path, |d.items|)
  {
  }

  /** The slots of a list are those of each item under each of its readings. */
  lemma ItemsRead(r: Reader, d: Data, raw: Node, path: string, s: Slot)
    requires r.Ranked() && d.List? && Branches(r, d, raw) == []
    ensures s in Slots(r, d, raw, path) <==> exists j: nat, k: nat ::
        ItemDeclares(r, d, Entered(r, d, raw), path, j, k, s)
  {
    SlotsOfList(r, d, raw, path);
    if s in ItemSlots(r, d, Entered(r, d, raw), path, |d.items|) {
      var j, k := DeclaredItem(r, d, Entered(r, d, raw), path, s);
    }
    if j: nat, k: nat :| ItemDeclares(r, d, Entered(r, d, raw), path, j, k, s) {
      ItemHeld(r, d, Entered(r, d, raw), path, j, k, s);
    }
  }

  /** Entry `j`, under the `k`-th schema declared for it, has the slot. */
  ghost predicate EntryDeclares(r: Reader, d: Data, entered: Node, path: string, j: nat, k: nat, s: Slot)
    requires r.Ranked() && d.Map?
  {
    && j < |d.entries| && k < |EntryReadings(r, entered, d.entries[j].0)|
    && s in Slots(r, d.entries[j].1, EntryReadings(r, entered, d.entries[j].0)[k], Child(path, Name(d.entries[j].0)))
  }

  lemma EntryHeld(r: Reader, d: Data, entered: Node, path: string, j: nat, k: nat, s: Slot)
    requires r.Ranked() && d.Map? && EntryDeclares(r, d, entered, path, j, k, s)
    ensures s in EntrySlots(r, d, entered, path, |d.entries|)
  {
    EntrySmaller(d, j);
    var readings := EntryReadings(r, entered, d.entries[j].0);
    ChildInto(r, d, d.entries[j].1, readings, Child(path, Name(d.entries[j].0)), |readings|, k, s);
    var parts := PartsOfEntries(r, d, entered, path);
    EntriesFlat(r, d, entered, path, parts);
    FlattenInto(parts, |parts|, j, s);
  }

  lemma DeclaredEntry(r: Reader, d: Data, entered: Node, path: string, s: Slot) returns (j: nat, k: nat)
    requires r.Ranked() && d.Map? && s in EntrySlots(r, d, entered, path, |d.entries|)
    ensures EntryDeclares(r, d, entered, path, j, k, s)
  {
    var parts := PartsOfEntries(r, d, entered, path);
    EntriesFlat(r, d, entered, path, parts);
    j := FlattenFrom(parts, |parts|, s);
    EntrySmaller(d, j);
    var readings := EntryReadings(r, entered, d.entries[j].0);
    k := ChildFrom(r, d, d.entries[j].1, readings, Child(path, Name(d.entries[j].0)), |readings|, s);
  }

  lemma SlotsOfObject(r: Reader, d: Data, raw: Node, path: string)
    requires r.Ranked() && d.Map? && Branches(r, d, raw) == []
    requires r.members(Entered(r, d, raw)).None?
    ensures Slots(r, d, raw, path) == EntrySlots(r, d, Entered(r, d, raw), path, |d.entries|)
  {
  }

  /** The slots of an object are those of each entry under each of its readings. */
  lemma EntriesRead(r: Reader, d: Data, raw: Node, path: string, s: Slot)
    requires r.Ranked() && d.Map? && Branches(r, d, raw) == []
    requires r.members(Entered(r, d, raw)).None?
    ensures s in Slots(r, d, raw, path) <==> exists j: nat, k: nat ::
        EntryDeclares(r, d, Entered(r, d, raw), path, j, k, s)
  {
    SlotsOfObject(r, d, raw, path);
    if s in EntrySlots(r, d, Entered(r, d, raw), path, |d.entries|) {
      var j, k := DeclaredEntry(r, d, Entered(r, d, raw), path, s);
    }
    if j: nat, k: nat :| EntryDeclares(r, d, Entered(r, d, raw), path, j, k, s) {
      EntryHeld(r, d, Entered(r, d, raw), path, j, k, s);
    }
  }

  // --- What is declared for a child -------------------------------------------------------------------

  lemma {:induction false} ItemDeclaredBy(r: Reader, conjuncts: seq<Node>, n: Node)
    ensures n in ItemDeclared(r, conjuncts) <==> exists i :: 0 <= i < |conjuncts| && r.items(conjuncts[i]) == Some(n)
  {
    if |conjuncts| > 0 {
      ItemDeclaredBy(r, conjuncts[1..], n);
      if i :| 0 <= i < |conjuncts| && r.items(conjuncts[i]) == Some(n) {
        assert i > 0 ==> conjuncts[1..][i - 1] == conjuncts[i];
      }
      if i :| 0 <= i < |conjuncts[1..]| && r.items(conjuncts[1..][i]) == Some(n) {
        assert conjuncts[i + 1] == conjuncts[1..][i];
      }
    }
  }

  lemma {:induction false} PropertyDeclaredBy(r: Reader, conjuncts: seq<Node>, key: string, n: Node)
    ensures n in PropertyDeclared(r, conjuncts, key) <==>
            exists i :: 0 <= i < |conjuncts| && r.property(conjuncts[i], key) == Some(n)
  {
    if |conjuncts| > 0 {
      PropertyDeclaredBy(r, conjuncts[1..], key, n);
      if i :| 0 <= i < |conjuncts| && r.property(conjuncts[i], key) == Some(n) {
        assert i > 0 ==> conjuncts[1..][i - 1] == conjuncts[i];
      }
      if i :| 0 <= i < |conjuncts[1..]| && r.property(conjuncts[1..][i], key) == Some(n) {
        assert conjuncts[i + 1] == conjuncts[1..][i];
      }
    }
  }

  /** The first conjunct that says what a map value is says so, or none does and it is anything. */
  ghost predicate SaidFirst(r: Reader, conjuncts: seq<Node>, entered: Node, n: Node) {
    || (exists j :: FirstSays(r, conjuncts, j, n))
    || ((forall i :: 0 <= i < |conjuncts| ==> r.additional(conjuncts[i]).None?) && n == r.open(entered))
  }

  ghost predicate FirstSays(r: Reader, conjuncts: seq<Node>, j: int, n: Node) {
    && 0 <= j < |conjuncts| && r.additional(conjuncts[j]) == Some(n)
    && forall i :: 0 <= i < j ==> r.additional(conjuncts[i]).None?
  }

  lemma {:induction false} MapValueExactly(r: Reader, conjuncts: seq<Node>, entered: Node, n: Node)
    ensures n == MapValue(r, conjuncts, entered) <==> SaidFirst(r, conjuncts, entered, n)
  {
    if |conjuncts| > 0 {
      var tail := conjuncts[1..];
      MapValueExactly(r, tail, entered, n);
      assert forall i :: 0 < i < |conjuncts| ==> conjuncts[i] == tail[i - 1];
      if r.additional(conjuncts[0]).Some? {
        assert n == MapValue(r, conjuncts, entered) ==> FirstSays(r, conjuncts, 0, n);
      } else {
        if j :| FirstSays(r, tail, j, n) {
          assert FirstSays(r, conjuncts, j + 1, n);
        }
        if j :| FirstSays(r, conjuncts, j, n) {
          assert FirstSays(r, tail, j - 1, n);
        }
      }
    }
  }

  /** A conjunct declares the items to be `n`; or none declares them, and they are anything. */
  ghost predicate DeclaresItem(r: Reader, conjuncts: seq<Node>, entered: Node, n: Node) {
    || (exists i :: 0 <= i < |conjuncts| && r.items(conjuncts[i]) == Some(n))
    || ((forall i :: 0 <= i < |conjuncts| ==> r.items(conjuncts[i]).None?) && n == r.open(entered))
  }

  /** A conjunct declares the key to be `n`; or none declares it, and it is a map value. */
  ghost predicate DeclaresKey(r: Reader, conjuncts: seq<Node>, entered: Node, key: string, n: Node) {
    || (exists i :: 0 <= i < |conjuncts| && r.property(conjuncts[i], key) == Some(n))
    || ((forall i :: 0 <= i < |conjuncts| ==> r.property(conjuncts[i], key).None?)
        && SaidFirst(r, conjuncts, entered, n))
  }

  lemma ItemReadingsExactly(r: Reader, entered: Node, n: Node)
    ensures n in ItemReadings(r, entered) <==> DeclaresItem(r, ConjunctsOf(r, entered), entered, n)
  {
    var conjuncts := ConjunctsOf(r, entered);
    var declared := ItemDeclared(r, conjuncts);
    ItemDeclaredBy(r, conjuncts, n);
    if |declared| > 0 {
      ItemDeclaredBy(r, conjuncts, declared[0]);
    }
    forall i | 0 <= i < |conjuncts| && r.items(conjuncts[i]).Some? ensures |declared| > 0 {
      ItemDeclaredBy(r, conjuncts, r.items(conjuncts[i]).value);
    }
  }

  lemma EntryReadingsExactly(r: Reader, entered: Node, key: string, n: Node)
    ensures n in EntryReadings(r, entered, key) <==> DeclaresKey(r, ConjunctsOf(r, entered), entered, key, n)
  {
    var conjuncts := ConjunctsOf(r, entered);
    var declared := PropertyDeclared(r, conjuncts, key);
    PropertyDeclaredBy(r, conjuncts, key, n);
    MapValueExactly(r, conjuncts, entered, n);
    if |declared| > 0 {
      PropertyDeclaredBy(r, conjuncts, key, declared[0]);
    }
    forall i | 0 <= i < |conjuncts| && r.property(conjuncts[i], key).Some? ensures |declared| > 0 {
      PropertyDeclaredBy(r, conjuncts, key, r.property(conjuncts[i], key).value);
    }
  }

  /** The one branch of a union that fits, resolved; or, where none or several fit, the node resolved. */
  ghost predicate Selects(r: Reader, d: Data, raw: Node, n: Node) {
    var fits := r.fits(r.resolve(raw), d);
    || (exists b :: fits == Some([b]) && b != r.resolve(raw) && n == r.resolve(b))
    || (!(exists b :: fits == Some([b]) && b != r.resolve(raw)) && n == r.resolve(raw))
  }

  lemma SelectsExactly(r: Reader, d: Data, raw: Node, n: Node)
    ensures n == Entered(r, d, raw) <==> Selects(r, d, raw, n)
  {
    var fits := r.fits(r.resolve(raw), d);
    if fits.Some? && |fits.value| == 1 {
      assert fits.value == [fits.value[0]];
    }
  }

  /** A union is ambiguous where several branches fit, and then each that fits is a branch of it. */
  lemma BranchesExactly(r: Reader, d: Data, raw: Node)
    ensures Branches(r, d, raw) != [] <==>
            (d.List? || d.Map?) && exists bs :: r.fits(r.resolve(raw), d) == Some(bs) && |bs| > 1
    ensures Branches(r, d, raw) != [] ==> r.fits(r.resolve(raw), d) == Some(Branches(r, d, raw))
  {
  }

  /** A list's slots are those of each item under each schema declared for the items, and no others. */
  lemma ItemsExactly(r: Reader, d: Data, raw: Node, path: string, s: Slot, entered: Node)
    requires r.Ranked() && d.List? && Branches(r, d, raw) == [] && Selects(r, d, raw, entered)
    ensures s in Slots(r, d, raw, path) <==>
            exists j: nat, n ::
              && j < |d.items| && DeclaresItem(r, ConjunctsOf(r, entered), entered, n)
              && s in Slots(r, d.items[j], n, Child(path, Index(j)))
  {
    SelectsExactly(r, d, raw, entered);
    ItemsRead(r, d, raw, path, s);
    if j: nat, k: nat :| ItemDeclares(r, d, entered, path, j, k, s) {
      ItemReadingsExactly(r, entered, ItemReadings(r, entered)[k]);
    }
    if j: nat, n :| j < |d.items| && DeclaresItem(r, ConjunctsOf(r, entered), entered, n)
                    && s in Slots(r, d.items[j], n, Child(path, Index(j))) {
      ItemReadingsExactly(r, entered, n);
      var k :| 0 <= k < |ItemReadings(r, entered)| && ItemReadings(r, entered)[k] == n;
      assert ItemDeclares(r, d, entered, path, j, k, s);
    }
  }

  /** Entry `j`, under a schema declared for its key, has the slot. */
  ghost predicate KeyHas(r: Reader, d: Data, entered: Node, path: string, j: nat, n: Node, s: Slot)
    requires r.Ranked() && d.Map?
  {
    && j < |d.entries| && DeclaresKey(r, ConjunctsOf(r, entered), entered, d.entries[j].0, n)
    && s in Slots(r, d.entries[j].1, n, Child(path, Name(d.entries[j].0)))
  }

  /** An object's slots are those of each entry under each schema declared for its key, and no others. */
  lemma EntriesExactly(r: Reader, d: Data, raw: Node, path: string, s: Slot, entered: Node)
    requires r.Ranked() && d.Map? && Branches(r, d, raw) == [] && Selects(r, d, raw, entered)
    requires r.members(entered).None?
    ensures s in Slots(r, d, raw, path) <==> exists j: nat, n :: KeyHas(r, d, entered, path, j, n, s)
  {
    SelectsExactly(r, d, raw, entered);
    EntriesRead(r, d, raw, path, s);
    if j: nat, k: nat :| EntryDeclares(r, d, entered, path, j, k, s) {
      var n := EntryReadings(r, entered, d.entries[j].0)[k];
      EntryReadingsExactly(r, entered, d.entries[j].0, n);
      assert KeyHas(r, d, entered, path, j, n, s);
    }
    if j: nat, n :| KeyHas(r, d, entered, path, j, n, s) {
      var readings := EntryReadings(r, entered, d.entries[j].0);
      EntryReadingsExactly(r, entered, d.entries[j].0, n);
      var k :| 0 <= k < |readings| && readings[k] == n;
      assert EntryDeclares(r, d, entered, path, j, k, s);
    }
  }

  // --- Under a value type's members ------------------------------------------------------------------

  /** The slots of one member; what is no member has none. */
  function SlotsOfMember(r: Reader, d: Data, schemas: map<string, Node>, path: string, j: nat): seq<Slot>
    requires r.Ranked() && d.Map? && j < |d.entries|
  {
    EntrySmaller(d, j);
    var e := d.entries[j];
    if e.0 in schemas then Slots(r, e.1, schemas[e.0], Child(path, Name(e.0))) else []
  }

  lemma MembersFlatNext(r: Reader, d: Data, schemas: map<string, Node>, path: string, parts: seq<seq<Slot>>, i: nat)
    requires r.Ranked() && d.Map? && 0 < i <= |d.entries| && |parts| == |d.entries|
    requires parts[i - 1] == SlotsOfMember(r, d, schemas, path, i - 1)
    requires MemberSlots(r, d, schemas, path, i - 1) == Flatten(parts, i - 1)
    ensures MemberSlots(r, d, schemas, path, i) == Flatten(parts, i)
  {
  }

  lemma MembersFlat(r: Reader, d: Data, schemas: map<string, Node>, path: string, parts: seq<seq<Slot>>)
    requires r.Ranked() && d.Map? && |parts| == |d.entries|
    requires forall j :: 0 <= j < |parts| ==> parts[j] == SlotsOfMember(r, d, schemas, path, j)
    ensures MemberSlots(r, d, schemas, path, |d.entries|) == Flatten(parts, |d.entries|)
  {
    for i := 0 to |d.entries|
      invariant MemberSlots(r, d, schemas, path, i) == Flatten(parts, i)
    {
      MembersFlatNext(r, d, schemas, path, parts, i + 1);
    }
  }

  lemma SlotsOfMembers(r: Reader, d: Data, raw: Node, path: string)
    requires r.Ranked() && d.Map? && Branches(r, d, raw) == [] && r.members(Entered(r, d, raw)).Some?
    ensures Slots(r, d, raw, path) == MemberSlots(r, d, r.members(Entered(r, d, raw)).value, path, |d.entries|)
  {
  }

  /** The slots of an object of members, member by member. */
  lemma MembersRead(r: Reader, d: Data, raw: Node, path: string, s: Slot)
    requires r.Ranked() && d.Map? && Branches(r, d, raw) == [] && r.members(Entered(r, d, raw)).Some?
    ensures s in Slots(r, d, raw, path) <==>
            exists j: nat :: j < |d.entries| && s in SlotsOfMember(r, d, r.members(Entered(r, d, raw)).value, path, j)
  {
    var schemas := r.members(Entered(r, d, raw)).value;
    var parts := seq(|d.entries|, j requires 0 <= j < |d.entries| => SlotsOfMember(r, d, schemas, path, j));
    SlotsOfMembers(r, d, raw, path);
    MembersFlat(r, d, schemas, path, parts);
    if s in MemberSlots(r, d, schemas, path, |d.entries|) {
      var j := FlattenFrom(parts, |parts|, s);
    }
    if j: nat :| j < |d.entries| && s in SlotsOfMember(r, d, schemas, path, j) {
      assert s in parts[j];
      FlattenInto(parts, |parts|, j, s);
    }
  }

  /** Entry `j` is a member, and has the slot under its schema. */
  ghost predicate MemberHas(r: Reader, d: Data, schemas: map<string, Node>, path: string, j: nat, s: Slot)
    requires r.Ranked() && d.Map?
  {
    && j < |d.entries| && d.entries[j].0 in schemas
    && s in Slots(r, d.entries[j].1, schemas[d.entries[j].0], Child(path, Name(d.entries[j].0)))
  }

  /** The slots of an object of members are those of each known one, and no others. */
  lemma MembersExactly(r: Reader, d: Data, raw: Node, path: string, s: Slot, entered: Node)
    requires r.Ranked() && d.Map? && Branches(r, d, raw) == [] && Selects(r, d, raw, entered)
    requires r.members(entered).Some?
    ensures s in Slots(r, d, raw, path) <==>
            exists j: nat :: MemberHas(r, d, r.members(entered).value, path, j, s)
  {
    var schemas := r.members(entered).value;
    SelectsExactly(r, d, raw, entered);
    MembersRead(r, d, raw, path, s);
    if j: nat :| j < |d.entries| && s in SlotsOfMember(r, d, schemas, path, j) {
      assert MemberHas(r, d, schemas, path, j, s);
    }
    if j: nat :| MemberHas(r, d, schemas, path, j, s) {
      assert s in SlotsOfMember(r, d, schemas, path, j);
    }
  }

  // --- A key declared twice, by example ----------------------------------------------------------------

  /** A schema that declares `port` itself, and once more in the one member of its `allOf`. */
  function PortTwice(): Reader {
    Reader(
      (n: Node) => n,
      (n: Node, d: Data) => None,
      (n: Node) => if n.schema == 0 then [Node(1, 0)] else [],
      (n: Node) => None,
      (n: Node, key: string) => if key == "port" && n.schema < 2 then Some(Node(n.schema + 2, 0)) else None,
      (n: Node) => None,
      (n: Node) => None,
      (n: Node) => Node(4, 0),
      {0, 1, 2, 3, 4},
      (n: Node) => 0)
  }

  lemma PortConjuncts()
    ensures ConjunctsOf(PortTwice(), Node(0, 0)) == [Node(0, 0), Node(1, 0)]
  {
    var r := PortTwice();
    assert MembersFrom(r, [], {0, 1}) == ([], {0, 1});
    assert {0} + {1} == {0, 1} && {} + {0} == {0};
    assert [Node(1, 0)] + [] == [Node(1, 0)];
    assert ConjunctsFrom(r, Node(1, 0), {0}) == ([Node(1, 0)], {0, 1});
    assert [Node(1, 0)][0] == Node(1, 0) && [Node(1, 0)][1..] == [];
    assert MembersFrom(r, [Node(1, 0)], {0}) == ([Node(1, 0)], {0, 1});
  }

  /** The leaf at `port` has a slot for each of the two declarations. */
  lemma PortHeldTwice()
    ensures PortTwice().Ranked()
    ensures Slots(PortTwice(), Map([("port", Cel)]), Node(0, 0), "") ==
            [Slot("port", Declared(Node(2, 0))), Slot("port", Declared(Node(3, 0)))]
  {
    var r, d, n := PortTwice(), Map([("port", Cel)]), Node(0, 0);
    PortConjuncts();
    assert [Node(0, 0), Node(1, 0)][1..] == [Node(1, 0)] && [Node(1, 0)][1..] == [];
    assert PropertyDeclared(r, [Node(1, 0)], "port") == [Node(3, 0)];
    assert EntryReadings(r, n, "port") == [Node(2, 0), Node(3, 0)];
    var readings := [Node(2, 0), Node(3, 0)];
    EntrySmaller(d, 0);
    assert ChildSlots(r, d, Cel, readings, "port", 0) == [];
    assert ChildSlots(r, d, Cel, readings, "port", 1) == [Slot("port", Declared(Node(2, 0)))];
    assert EntrySlots(r, d, n, "", 0) == [];
    assert EntrySlots(r, d, n, "", 1) == [] + ChildSlots(r, d, Cel, readings, "port", 2);
  }
}
