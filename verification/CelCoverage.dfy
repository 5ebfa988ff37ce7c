/**
 * The agreement of the two walks over a resource's `!cel` leaves. A leaf has a slot unless,
 * on every way the schema walk takes to it, an object read as a value type's members stops
 * it at a key that is no member; and there is no other slot.
 */
module CelCoverage {
  import opened CelLeaves
  import opened CelSlots
  import opened CelUnions
  import opened PathText
  import opened Prelude

  // --- Where the schema walk stops -----------------------------------------------------------------

  /**
   * The way to the leaf at `rest` ends at an unknown key: under an ambiguous union in every
   * branch, under a list or an object in every schema declared for the child.
   */
  ghost predicate Stopped(r: Reader, d: Data, raw: Node, rest: Path)
    requires r.Ranked()
    decreases d, r.rank(raw), 1
  {
    var entered := Entered(r, d, raw);
    if Branches(r, d, raw) != [] then
      forall b :: b in Branches(r, d, raw) ==> b in r.fits(r.resolve(raw), d).value && Stopped(r, d, b, rest)
    else
      match d
      case List(items) =>
        |rest| > 0 && rest[0].Index? && rest[0].index < |items| &&
        forall n :: n in ItemReadings(r, entered) ==> Stopped(r, items[rest[0].index], n, rest[1..])
      case Map(entries) =>
        |rest| > 0 && forall j: nat :: j < |entries| ==> StoppedAt(r, d, entered, j, rest)
      case _ => false
  }

  /** Entry `j`, where it leads to the leaf at all, does not reach it. */
  ghost predicate StoppedAt(r: Reader, d: Data, entered: Node, j: nat, rest: Path)
    requires r.Ranked() && d.Map? && j < |d.entries| && |rest| > 0
    decreases d, 0, 0
  {
    EntrySmaller(d, j);
    var e := d.entries[j];
    rest[0] == Name(e.0) && CelAt(e.1, rest[1..]) ==>
      match r.members(entered)
      case Some(schemas) => e.0 !in schemas || Stopped(r, e.1, schemas[e.0], rest[1..])
      case None => forall n :: n in EntryReadings(r, entered, e.0) ==> Stopped(r, e.1, n, rest[1..])
  }

  /** A `!cel` leaf that the schema walk comes to. */
  ghost predicate Reached(r: Reader, d: Data, raw: Node, rest: Path)
    requires r.Ranked()
  {
    CelAt(d, rest) && !Stopped(r, d, raw, rest)
  }

  // --- Every slot is a leaf's ------------------------------------------------------------------------

  lemma ChildText(keys: Path, k: Key)
    ensures TextOf(keys + [k]) == Child(TextOf(keys), k)
  {
    assert (keys + [k])[..|keys + [k]| - 1] == keys;
  }

  lemma ReachedBranch(r: Reader, d: Data, raw: Node, rest: Path, j: nat)
    requires r.Ranked() && j < |Branches(r, d, raw)| && Reached(r, d, Branches(r, d, raw)[j], rest)
    ensures Reached(r, d, raw, rest)
  {
    assert Branches(r, d, raw)[j] in Branches(r, d, raw);
  }

  lemma ReachedItem(r: Reader, d: Data, raw: Node, j: nat, n: Node, rest: Path)
    requires r.Ranked() && d.List? && Branches(r, d, raw) == [] && j < |d.items|
    requires n in ItemReadings(r, Entered(r, d, raw)) && Reached(r, d.items[j], n, rest)
    ensures Reached(r, d, raw, [Index(j)] + rest)
  {
    assert ([Index(j)] + rest)[1..] == rest;
  }

  lemma ReachedEntry(r: Reader, d: Data, raw: Node, j: nat, n: Node, rest: Path)
    requires r.Ranked() && d.Map? && Branches(r, d, raw) == [] && j < |d.entries|
    requires r.members(Entered(r, d, raw)).None?
    requires n in EntryReadings(r, Entered(r, d, raw), d.entries[j].0) && Reached(r, d.entries[j].1, n, rest)
    ensures Reached(r, d, raw, [Name(d.entries[j].0)] + rest)
  {
    var whole := [Name(d.entries[j].0)] + rest;
    assert whole[1..] == rest;
    assert !StoppedAt(r, d, Entered(r, d, raw), j, whole);
  }

  lemma ReachedMember(r: Reader, d: Data, raw: Node, j: nat, rest: Path)
    requires r.Ranked() && d.Map? && Branches(r, d, raw) == [] && j < |d.entries|
    requires r.members(Entered(r, d, raw)).Some? && d.entries[j].0 in r.members(Entered(r, d, raw)).value
    requires Reached(r, d.entries[j].1, r.members(Entered(r, d, raw)).value[d.entries[j].0], rest)
    ensures Reached(r, d, raw, [Name(d.entries[j].0)] + rest)
  {
    var whole := [Name(d.entries[j].0)] + rest;
    assert whole[1..] == rest;
    assert !StoppedAt(r, d, Entered(r, d, raw), j, whole);
  }

  /** Every slot is at the path of a leaf the walk comes to. */
  lemma {:induction false} SlotOfLeaf(r: Reader, d: Data, raw: Node, keys: Path, s: Slot) returns (rest: Path)
    requires r.Ranked() && s in Slots(r, d, raw, TextOf(keys))
    ensures Reached(r, d, raw, rest) && s.path == TextOf(keys + rest)
    decreases d, r.rank(raw), 1
  {
    var path, entered := TextOf(keys), Entered(r, d, raw);
    if d.Cel? {
      rest := [];
      assert keys + [] == keys;
    } else if Branches(r, d, raw) != [] {
      var j, t := BranchSlotAt(r, d, raw, path, s);
      assert Branches(r, d, raw)[j] in r.fits(r.resolve(raw), d).value;
      rest := SlotOfLeaf(r, d, Branches(r, d, raw)[j], keys, t);
      ReachedBranch(r, d, raw, rest, j);
    } else if d.List? {
      ItemsRead(r, d, raw, path, s);
      var j: nat, k: nat :| ItemDeclares(r, d, entered, path, j, k, s);
      ChildText(keys, Index(j));
      var n := ItemReadings(r, entered)[k];
      var deeper := SlotOfLeaf(r, d.items[j], n, keys + [Index(j)], s);
      ReachedItem(r, d, raw, j, n, deeper);
      Regroup3(keys, [Index(j)], deeper);
      rest := [Index(j)] + deeper;
    } else {
      rest := SlotOfEntry(r, d, raw, keys, s);
    }
  }

  lemma {:induction false} SlotOfEntry(r: Reader, d: Data, raw: Node, keys: Path, s: Slot) returns (rest: Path)
    requires r.Ranked() && d.Map? && Branches(r, d, raw) == [] && s in Slots(r, d, raw, TextOf(keys))
    ensures Reached(r, d, raw, rest) && s.path == TextOf(keys + rest)
    decreases d, r.rank(raw), 0
  {
    var path, entered := TextOf(keys), Entered(r, d, raw);
    var j: nat, deeper: Path;
    if r.members(entered).Some? {
      MembersRead(r, d, raw, path, s);
      j :| j < |d.entries| && s in SlotsOfMember(r, d, r.members(entered).value, path, j);
      EntrySmaller(d, j);
      ChildText(keys, Name(d.entries[j].0));
      deeper := SlotOfLeaf(r, d.entries[j].1, r.members(entered).value[d.entries[j].0], keys + [Name(d.entries[j].0)],
          s);
      ReachedMember(r, d, raw, j, deeper);
    } else {
      EntriesRead(r, d, raw, path, s);
      var k: nat;
      j, k :| EntryDeclares(r, d, entered, path, j, k, s);
      EntrySmaller(d, j);
      ChildText(keys, Name(d.entries[j].0));
      var n := EntryReadings(r, entered, d.entries[j].0)[k];
      deeper := SlotOfLeaf(r, d.entries[j].1, n, keys + [Name(d.entries[j].0)], s);
      ReachedEntry(r, d, raw, j, n, deeper);
    }
    Regroup3(keys, [Name(d.entries[j].0)], deeper);
    rest := [Name(d.entries[j].0)] + deeper;
  }

  // --- Every leaf come to has a slot -------------------------------------------------------------------

  lemma {:induction false} LeafHasSlot(r: Reader, d: Data, raw: Node, keys: Path, rest: Path) returns (s: Slot)
    requires r.Ranked() && Reached(r, d, raw, rest)
    ensures s in Slots(r, d, raw, TextOf(keys)) && s.path == TextOf(keys + rest)
    decreases d, r.rank(raw), 1
  {
    var path := TextOf(keys);
    if d.Cel? {
      s := Slot(path, Declared(raw));
      assert keys + [] == keys;
    } else if Branches(r, d, raw) != [] {
      var j := NextBranch(r, d, raw, rest);
      var t := LeafHasSlot(r, d, Branches(r, d, raw)[j], keys, rest);
      s := EveryBranchHeld(r, d, raw, path, j, t);
    } else if d.List? {
      var j, n := NextItem(r, d, raw, rest);
      ChildText(keys, Index(j));
      s := LeafHasSlot(r, d.items[j], n, keys + [Index(j)], rest[1..]);
      ItemTaken(r, d, raw, path, j, n, s);
      Regroup3(keys, [Index(j)], rest[1..]);
    } else {
      s := EntryHasSlot(r, d, raw, keys, rest);
    }
  }

  /** A branch the walk takes to the leaf. */
  lemma NextBranch(r: Reader, d: Data, raw: Node, rest: Path) returns (j: nat)
    requires r.Ranked() && !d.Cel? && Branches(r, d, raw) != [] && Reached(r, d, raw, rest)
    ensures j < |Branches(r, d, raw)| && Reached(r, d, Branches(r, d, raw)[j], rest)
    ensures r.rank(Branches(r, d, raw)[j]) < r.rank(raw)
  {
    var b :| b in Branches(r, d, raw) && !Stopped(r, d, b, rest);
    j :| 0 <= j < |Branches(r, d, raw)| && Branches(r, d, raw)[j] == b;
    assert b in r.fits(r.resolve(raw), d).value;
  }

  /** An item, and a schema the walk reads it with. */
  lemma NextItem(r: Reader, d: Data, raw: Node, rest: Path) returns (j: nat, n: Node)
    requires r.Ranked() && d.List? && Branches(r, d, raw) == [] && Reached(r, d, raw, rest)
    ensures j < |d.items| && n in ItemReadings(r, Entered(r, d, raw))
    ensures rest == [Index(j)] + rest[1..] && Reached(r, d.items[j], n, rest[1..])
  {
    j := rest[0].index;
    n :| n in ItemReadings(r, Entered(r, d, raw)) && !Stopped(r, d.items[j], n, rest[1..]);
  }

  /** A slot of an item, under a schema it is read with, is the list's. */
  lemma ItemTaken(r: Reader, d: Data, raw: Node, path: string, j: nat, n: Node, s: Slot)
    requires r.Ranked() && d.List? && Branches(r, d, raw) == [] && j < |d.items|
    requires n in ItemReadings(r, Entered(r, d, raw)) && s in Slots(r, d.items[j], n, Child(path, Index(j)))
    ensures s in Slots(r, d, raw, path)
  {
    var entered := Entered(r, d, raw);
    var k :| 0 <= k < |ItemReadings(r, entered)| && ItemReadings(r, entered)[k] == n;
    assert ItemDeclares(r, d, entered, path, j, k, s);
    ItemsRead(r, d, raw, path, s);
  }

  /** A schema the walk reads entry `j` with. */
  ghost predicate Reads(r: Reader, d: Data, raw: Node, j: nat, n: Node)
    requires d.Map? && j < |d.entries|
  {
    var entered, key := Entered(r, d, raw), d.entries[j].0;
    match r.members(entered)
    case Some(schemas) => key in schemas && n == schemas[key]
    case None => n in EntryReadings(r, entered, key)
  }

  lemma NextEntry(r: Reader, d: Data, raw: Node, rest: Path) returns (j: nat, n: Node)
    requires r.Ranked() && d.Map? && Branches(r, d, raw) == [] && Reached(r, d, raw, rest)
    ensures j < |d.entries| && Reads(r, d, raw, j, n)
    ensures rest == [Name(d.entries[j].0)] + rest[1..] && Reached(r, d.entries[j].1, n, rest[1..])
  {
    var entered := Entered(r, d, raw);
    assert |rest| > 0 && !Stopped(r, d, raw, rest);
    j :| j < |d.entries| && !StoppedAt(r, d, entered, j, rest);
    var e := d.entries[j];
    n := if r.members(entered).Some? then r.members(entered).value[e.0] else raw;
    if r.members(entered).None? {
      n :| n in EntryReadings(r, entered, e.0) && !Stopped(r, e.1, n, rest[1..]);
    }
  }

  /** A slot of an entry, under a schema it is read with, is the object's. */
  lemma EntryTaken(r: Reader, d: Data, raw: Node, path: string, j: nat, n: Node, s: Slot)
    requires r.Ranked() && d.Map? && Branches(r, d, raw) == [] && j < |d.entries| && Reads(r, d, raw, j, n)
    requires s in Slots(r, d.entries[j].1, n, Child(path, Name(d.entries[j].0)))
    ensures s in Slots(r, d, raw, path)
  {
    var entered, e := Entered(r, d, raw), d.entries[j];
    if r.members(entered).Some? {
      assert s in SlotsOfMember(r, d, r.members(entered).value, path, j);
      MembersRead(r, d, raw, path, s);
    } else {
      var k :| 0 <= k < |EntryReadings(r, entered, e.0)| && EntryReadings(r, entered, e.0)[k] == n;
      assert EntryDeclares(r, d, entered, path, j, k, s);
      EntriesRead(r, d, raw, path, s);
    }
  }

  lemma {:induction false} EntryHasSlot(r: Reader, d: Data, raw: Node, keys: Path, rest: Path) returns (s: Slot)
    requires r.Ranked() && d.Map? && Branches(r, d, raw) == [] && Reached(r, d, raw, rest)
    ensures s in Slots(r, d, raw, TextOf(keys)) && s.path == TextOf(keys + rest)
    decreases d, r.rank(raw), 0
  {
    var j, n := NextEntry(r, d, raw, rest);
    var k := Name(d.entries[j].0);
    EntrySmaller(d, j);
    ChildText(keys, k);
    s := LeafHasSlot(r, d.entries[j].1, n, keys + [k], rest[1..]);
    EntryTaken(r, d, raw, TextOf(keys), j, n, s);
    Regroup3(keys, [k], rest[1..]);
  }

  // --- The agreement --------------------------------------------------------------------------------------

  /** A path text has a slot. */
  ghost predicate HasSlot(r: Reader, d: Data, schema: Node, text: string)
    requires r.Ranked()
  {
    exists s :: s in Slots(r, d, schema, "") && s.path == text
  }

  /** The slots are at exactly the texts of the leaves the walk comes to. */
  lemma SlotsExactly(r: Reader, d: Data, schema: Node, text: string)
    requires r.Ranked()
    ensures HasSlot(r, d, schema, text) <==> exists rest :: Reached(r, d, schema, rest) && TextOf(rest) == text
  {
    assert TextOf([]) == "";
    if s :| s in Slots(r, d, schema, "") && s.path == text {
      var rest := SlotOfLeaf(r, d, schema, [], s);
      assert [] + rest == rest;
    }
    if rest :| Reached(r, d, schema, rest) && TextOf(rest) == text {
      var s := LeafHasSlot(r, d, schema, [], rest);
      assert [] + rest == rest;
    }
  }

  /** No two leaves have one path text. */
  ghost predicate TellsApart(d: Data) {
    forall p, q :: CelAt(d, p) && CelAt(d, q) && TextOf(p) == TextOf(q) ==> p == q
  }

  /** Keys that a path text cannot confuse: none empty, none with a `.` or a `]`. */
  predicate PlainKeys(d: Data)
    decreases d
  {
    match d
    case List(items) => forall i :: 0 <= i < |items| ==> PlainKeys(items[i])
    case Map(entries) =>
      forall i :: 0 <= i < |entries| ==>
        assert entries[i] in entries && entries[i].1 < entries[i];
        PlainName(entries[i].0) && PlainKeys(entries[i].1)
    case _ => true
  }

  lemma {:induction false} PlainLeaf(d: Data, p: Path)
    requires PlainKeys(d) && CelAt(d, p)
    ensures PlainPath(p)
    decreases d
  {
    if d.List? {
      PlainLeaf(d.items[p[0].index], p[1..]);
      assert p == [p[0]] + p[1..];
    } else if d.Map? {
      var j :| 0 <= j < |d.entries| && d.entries[j].0 == p[0].name && CelAt(d.entries[j].1, p[1..]);
      EntrySmaller(d, j);
      PlainLeaf(d.entries[j].1, p[1..]);
      assert p == [p[0]] + p[1..];
    }
  }

  lemma PlainTellsApart(d: Data)
    requires PlainKeys(d)
    ensures TellsApart(d)
  {
    forall p, q | CelAt(d, p) && CelAt(d, q) && TextOf(p) == TextOf(q) ensures p == q {
      PlainLeaf(d, p);
      PlainLeaf(d, q);
      TextInjective(p, q);
    }
  }

  lemma LeavesAre(d: Data, p: Path)
    ensures p in LeavesAt(d, []) <==> CelAt(d, p)
  {
    LeavesExact(d, [], p);
    assert p[0..] == p;
  }

  /** No slot is at any other place than a leaf's. */
  lemma SlotsAreLeaves(r: Reader, d: Data, schema: Node, s: Slot) returns (p: Path)
    requires r.Ranked() && s in Slots(r, d, schema, "")
    ensures p in LeavesAt(d, []) && TextOf(p) == s.path && !Stopped(r, d, schema, p)
  {
    p := SlotOfLeaf(r, d, schema, [], s);
    assert [] + p == p;
    LeavesAre(d, p);
  }

  /** A leaf whose text is no other leaf's has a slot exactly when it is not stopped. */
  lemma LeafEscapes(r: Reader, d: Data, schema: Node, p: Path)
    requires r.Ranked() && TellsApart(d) && p in LeavesAt(d, [])
    ensures HasSlot(r, d, schema, TextOf(p)) <==> !Stopped(r, d, schema, p)
  {
    LeavesAre(d, p);
    SlotsExactly(r, d, schema, TextOf(p));
    if q :| Reached(r, d, schema, q) && TextOf(q) == TextOf(p) {
      assert q == p;
    }
    assert !Stopped(r, d, schema, p) ==> Reached(r, d, schema, p);
  }

  /** Some leaf with this path text is not stopped. */
  ghost predicate TextReached(r: Reader, d: Data, schema: Node, text: string)
    requires r.Ranked()
  {
    exists q :: q in LeavesAt(d, []) && TextOf(q) == text && !Stopped(r, d, schema, q)
  }

  lemma TextReachedExactly(r: Reader, d: Data, schema: Node, text: string)
    requires r.Ranked()
    ensures HasSlot(r, d, schema, text) <==> TextReached(r, d, schema, text)
  {
    SlotsExactly(r, d, schema, text);
    if q :| Reached(r, d, schema, q) && TextOf(q) == text {
      LeavesAre(d, q);
    }
    if q :| q in LeavesAt(d, []) && TextOf(q) == text && !Stopped(r, d, schema, q) {
      LeavesAre(d, q);
      assert Reached(r, d, schema, q);
    }
  }

  /**
   * No expression escapes slot checking exactly when every leaf has one at its path text that
   * is not stopped at a key that is no member of a value type; and, where path texts tell the
   * leaves apart, exactly when no leaf is.
   */
  lemma NoLeafEscapes(r: Reader, d: Data, schema: Node)
    requires r.Ranked()
    ensures (forall p :: p in LeavesAt(d, []) ==> HasSlot(r, d, schema, TextOf(p))) <==>
            (forall p :: p in LeavesAt(d, []) ==> TextReached(r, d, schema, TextOf(p)))
    ensures PlainKeys(d) ==>
              ((forall p :: p in LeavesAt(d, []) ==> HasSlot(r, d, schema, TextOf(p))) <==>
               (forall p :: p in LeavesAt(d, []) ==> !Stopped(r, d, schema, p)))
  {
    forall p | p in LeavesAt(d, [])
      ensures HasSlot(r, d, schema, TextOf(p)) <==> TextReached(r, d, schema, TextOf(p))
      ensures PlainKeys(d) ==> (HasSlot(r, d, schema, TextOf(p)) <==> !Stopped(r, d, schema, p))
    {
      TextReachedExactly(r, d, schema, TextOf(p));
      if PlainKeys(d) {
        PlainTellsApart(d);
        LeafEscapes(r, d, schema, p);
      }
    }
  }

  // --- Objects that state only known members ---------------------------------------------------------------

  /** In each object the walk reads as members, an unknown key holds no leaf. */
  ghost predicate Stated(r: Reader, d: Data, raw: Node)
    requires r.Ranked()
    decreases d, r.rank(raw), 1
  {
    var entered := Entered(r, d, raw);
    if Branches(r, d, raw) != [] then
      forall b :: b in Branches(r, d, raw) && b in r.fits(r.resolve(raw), d).value ==> Stated(r, d, b)
    else
      match d
      case List(items) =>
        forall j, n :: 0 <= j < |items| && n in ItemReadings(r, entered) ==> Stated(r, items[j], n)
      case Map(entries) => forall j: nat :: j < |entries| ==> StatedAt(r, d, entered, j)
      case _ => true
  }

  ghost predicate StatedAt(r: Reader, d: Data, entered: Node, j: nat)
    requires r.Ranked() && d.Map? && j < |d.entries|
    decreases d, 0, 0
  {
    EntrySmaller(d, j);
    var e := d.entries[j];
    match r.members(entered)
    case Some(schemas) => if e.0 in schemas then Stated(r, e.1, schemas[e.0]) else forall p :: !CelAt(e.1, p)
    case None => forall n :: n in EntryReadings(r, entered, e.0) ==> Stated(r, e.1, n)
  }

  /** Such a resource's leaves are all come to. */
  lemma {:induction false} StatedReached(r: Reader, d: Data, raw: Node, rest: Path)
    requires r.Ranked() && Stated(r, d, raw) && CelAt(d, rest)
    ensures !Stopped(r, d, raw, rest)
    decreases d, r.rank(raw), 1
  {
    var entered := Entered(r, d, raw);
    if Branches(r, d, raw) != [] {
      var b := Branches(r, d, raw)[0];
      assert b in Branches(r, d, raw) && b in r.fits(r.resolve(raw), d).value;
      StatedReached(r, d, b, rest);
    } else if d.List? {
      var n := ItemReadings(r, entered)[0];
      assert n in ItemReadings(r, entered);
      StatedReached(r, d.items[rest[0].index], n, rest[1..]);
    } else if d.Map? {
      StatedEntryReached(r, d, raw, rest);
    }
  }

  lemma {:induction false} StatedEntryReached(r: Reader, d: Data, raw: Node, rest: Path)
    requires r.Ranked() && d.Map? && Branches(r, d, raw) == [] && Stated(r, d, raw) && CelAt(d, rest)
    ensures !Stopped(r, d, raw, rest)
    decreases d, r.rank(raw), 0
  {
    var entered := Entered(r, d, raw);
    var j: nat :| j < |d.entries| && d.entries[j].0 == rest[0].name && CelAt(d.entries[j].1, rest[1..]);
    var e := d.entries[j];
    EntrySmaller(d, j);
    assert StatedAt(r, d, entered, j);
    if r.members(entered).Some? {
      StatedReached(r, e.1, r.members(entered).value[e.0], rest[1..]);
    } else {
      var n := EntryReadings(r, entered, e.0)[0];
      assert n in EntryReadings(r, entered, e.0);
      StatedReached(r, e.1, n, rest[1..]);
    }
    assert !StoppedAt(r, d, entered, j, rest);
  }

  /** With only known members stated every leaf has a slot at its path. */
  lemma StatedHasSlots(r: Reader, d: Data, schema: Node, p: Path)
    requires r.Ranked() && Stated(r, d, schema) && p in LeavesAt(d, [])
    ensures HasSlot(r, d, schema, TextOf(p))
  {
    LeavesAre(d, p);
    StatedReached(r, d, schema, p);
    assert Reached(r, d, schema, p);
    SlotsExactly(r, d, schema, TextOf(p));
  }

  /** A leaf at a key that is no member has no slot. */
  lemma UnknownMemberEscapes(r: Reader, key: string, schema: Node)
    requires r.Ranked()
    requires var d := Map([(key, Cel)]);
             && Branches(r, d, schema) == [] && r.members(Entered(r, d, schema)).Some?
             && key !in r.members(Entered(r, d, schema)).value
    ensures LeavesAt(Map([(key, Cel)]), []) == [[Name(key)]]
    ensures Stopped(r, Map([(key, Cel)]), schema, [Name(key)])
    ensures Slots(r, Map([(key, Cel)]), schema, "") == []
  {
    var d := Map([(key, Cel)]);
    var schemas := r.members(Entered(r, d, schema)).value;
    OneLeaf(key);
    assert MemberSlots(r, d, schemas, "", 1) == MemberSlots(r, d, schemas, "", 0) + [];
    assert StoppedAt(r, d, Entered(r, d, schema), 0, [Name(key)]);
  }

  /** A value type with one member, `known`; every other schema says nothing. */
  function OneMember(): Reader {
    Reader(
      (n: Node) => n,
      (n: Node, d: Data) => None,
      (n: Node) => [],
      (n: Node) => None,
      (n: Node, key: string) => None,
      (n: Node) => None,
      (n: Node) => if n.schema == 0 then Some(map["known" := Node(1, n.root)]) else None,
      (n: Node) => Node(2, n.root),
      {0, 1, 2},
      (n: Node) => 0)
  }

  /** By example: a leaf at the member has a slot, a leaf at another key has none. */
  lemma OtherKeyEscapes()
    ensures OneMember().Ranked()
    ensures LeavesAt(Map([("other", Cel)]), []) == [[Name("other")]]
    ensures Slots(OneMember(), Map([("other", Cel)]), Node(0, 0), "") == []
    ensures LeavesAt(Map([("known", Cel)]), []) == [[Name("known")]]
    ensures HasSlot(OneMember(), Map([("known", Cel)]), Node(0, 0), "known")
  {
    var r, d, schema := OneMember(), Map([("known", Cel)]), Node(0, 0);
    assert "other"[0] != "known"[0];
    UnknownMemberEscapes(r, "other", schema);
    OneLeaf("known");
    assert StatedAt(r, d, Entered(r, d, schema), 0);
    StatedHasSlots(r, d, schema, [Name("known")]);
    assert [Name("known")][..0] == [];
    assert TextOf([Name("known")]) == "known";
  }

  lemma OneLeaf(key: string)
    ensures LeavesAt(Map([(key, Cel)]), []) == [[Name(key)]]
  {
    var d := Map([(key, Cel)]);
    assert EntryLeaves(d, [], 1) == EntryLeaves(d, [], 0) + Leaves(Cel, [] + [Name(key)]);
    assert [] + [Name(key)] == [Name(key)];
    assert LeavesAt(d, []) == Leaves(d, []) == EntryLeaves(d, [], 1);
  }
}
