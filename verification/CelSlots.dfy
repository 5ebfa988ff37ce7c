/**
 * `declaredCelSlots`: data and schema walked together, collecting each `!cel` leaf with
 * what is declared for the field it sits in.
 */
module CelSlots {
  import opened CelLeaves
  import opened PathText
  import opened Prelude

  /** A schema node and the root of the document it is in; a schema is told by its identity. */
  datatype Node = Node(schema: nat, root: nat)

  /** A slot's schema: as declared, as the shape the declaration names, or a union of such shapes. */
  datatype Schema = Declared(node: Node) | Shape(node: Node) | AnyOf(shapes: seq<Schema>)

  datatype Slot = Slot(path: string, schema: Schema)

  /**
   * How a schema is read. `resolve` follows a reference; `fits` are the branches of a union
   * that data may be written against, if the schema is one; `allOf` are the resolved
   * conjuncts; `items`, `property` and `additional` are what a node declares for a child;
   * `members` are the schemas of a value type's members; `open` is the schema that says nothing,
   * in the document of a node. `rank` falls from a union to its branches.
   */
  datatype Reader = Reader(
    resolve: Node -> Node,
    fits: (Node, Data) -> Option<seq<Node>>,
    allOf: Node -> seq<Node>,
    items: Node -> Option<Node>,
    property: (Node, string) -> Option<Node>,
    additional: Node -> Option<Node>,
    members: Node -> Option<map<string, Node>>,
    open: Node -> Node,
    schemas: set<nat>,
    rank: Node -> nat)
  {
    ghost predicate Ranked() {
      forall n: Node, d: Data {:trigger fits(resolve(n), d)} ::
        fits(resolve(n), d).Some? ==> forall b :: b in fits(resolve(n), d).value ==> rank(b) < rank(n)
    }
  }

  // --- Conjuncts ------------------------------------------------------------------------------------

  /** `conjunctsOf`: the node and every conjunct beneath it, each schema once. */
  function ConjunctsFrom(r: Reader, node: Node, seen: set<nat>): (result: (seq<Node>, set<nat>))
    ensures seen <= result.1
    decreases r.schemas - seen, 1, 0
  {
    if node.schema in seen || node.schema !in r.schemas then ([], seen)
    else
      var within := MembersFrom(r, r.allOf(node), seen + {node.schema});
      ([node] + within.0, within.1)
  }

  function MembersFrom(r: Reader, members: seq<Node>, seen: set<nat>): (result: (seq<Node>, set<nat>))
    ensures seen <= result.1
    decreases r.schemas - seen, 2, |members|
  {
    if |members| == 0 then ([], seen)
    else
      var first := ConjunctsFrom(r, members[0], seen);
      var rest := MembersFrom(r, members[1..], first.1);
      (first.0 + rest.0, rest.1)
  }

  function ConjunctsOf(r: Reader, node: Node): seq<Node> {
    ConjunctsFrom(r, node, {}).0
  }

  // --- What is declared for a child -------------------------------------------------------------------

  function ItemDeclared(r: Reader, conjuncts: seq<Node>): seq<Node> {
    if |conjuncts| == 0 then []
    else
      (match r.items(conjuncts[0]) case None => [] case Some(n) => [n]) + ItemDeclared(r, conjuncts[1..])
  }

  function PropertyDeclared(r: Reader, conjuncts: seq<Node>, key: string): seq<Node> {
    if |conjuncts| == 0 then []
    else
      (match r.property(conjuncts[0], key) case None => [] case Some(n) => [n])
          + PropertyDeclared(r, conjuncts[1..], key)
  }

  /** What a map value is: the first conjunct that says, or nothing. */
  function MapValue(r: Reader, conjuncts: seq<Node>, entered: Node): Node {
    if |conjuncts| == 0 then r.open(entered)
    else if r.additional(conjuncts[0]).Some? then r.additional(conjuncts[0]).value
    else MapValue(r, conjuncts[1..], entered)
  }

  /** The declared schemas, or the reading of a child none declares. */
  function OrElse(declared: seq<Node>, undeclared: Node): (r: seq<Node>)
    ensures |r| > 0
  {
    if |declared| == 0 then [undeclared] else declared
  }

  // --- Joining the branches of a union -------------------------------------------------------------------

  /** The slots of several branches at one path. */
  datatype Group = Group(path: string, held: seq<Slot>)

  /** The schema objects are one: a joined schema is an object of its own. */
  predicate SameSchema(a: Schema, b: Schema) {
    a.Declared? && b.Declared? && a.node.schema == b.node.schema
  }

  predicate AlreadyHeld(held: seq<Slot>, slot: Slot) {
    exists i :: 0 <= i < |held| && SameSchema(held[i].schema, slot.schema)
  }

  function Hold(groups: seq<Group>, slot: Slot): seq<Group> {
    if |groups| == 0 then [Group(slot.path, [slot])]
    else if groups[0].path != slot.path then [groups[0]] + Hold(groups[1..], slot)
    else if AlreadyHeld(groups[0].held, slot) then groups
    else [Group(slot.path, groups[0].held + [slot])] + groups[1..]
  }

  function HoldAll(groups: seq<Group>, slots: seq<Slot>, n: nat): seq<Group>
    requires n <= |slots|
  {
    if n == 0 then groups else Hold(HoldAll(groups, slots, n - 1), slots[n - 1])
  }

  function Named(s: Schema): Schema {
    if s.Declared? then Shape(s.node) else s
  }

  function NamedAll(held: seq<Slot>): (r: seq<Schema>)
    ensures |r| == |held| && forall i :: 0 <= i < |r| ==> r[i] == Named(held[i].schema)
  {
    seq(|held|, i requires 0 <= i < |held| => Named(held[i].schema))
  }

  /** A path's slot: the only one there is, or the union of the shapes held. */
  function Joined(g: Group): Slot {
    if |g.held| == 1 then g.held[0] else Slot(g.path, AnyOf(NamedAll(g.held)))
  }

  function JoinedUpTo(groups: seq<Group>, n: nat): seq<Slot>
    requires n <= |groups|
  {
    if n == 0 then [] else JoinedUpTo(groups, n - 1) + [Joined(groups[n - 1])]
  }

  // --- The slots of a value -----------------------------------------------------------------------------

  predicate IsObject(d: Data) {
    d.List? || d.Map?
  }

  /** The branches of an ambiguous union. */
  function Branches(r: Reader, d: Data, raw: Node): seq<Node> {
    var fits := r.fits(r.resolve(raw), d);
    if IsObject(d) && fits.Some? && |fits.value| > 1 then fits.value else []
  }

  /** The node the walk goes on with: the one branch that fits, or the node itself. */
  function Entered(r: Reader, d: Data, raw: Node): Node {
    var fits := r.fits(r.resolve(raw), d);
    if fits.Some? && |fits.value| == 1 && fits.value[0] != r.resolve(raw) then r.resolve(fits.value[0])
        else r.resolve(raw)
  }

  lemma EntrySmaller(d: Data, i: nat)
    requires d.Map? && i < |d.entries|
    ensures d.entries[i].1 < d
  {
    var e := d.entries[i];
    assert e in d.entries && e.1 < e;
  }

  function Slots(r: Reader, d: Data, raw: Node, path: string): seq<Slot>
    requires r.Ranked()
    decreases d, r.rank(raw), 2, 0
  {
    if d.Cel? then [Slot(path, Declared(raw))]
    else if !IsObject(d) then []
    else if Branches(r, d, raw) != [] then
      var groups := BranchGroups(r, d, raw, path, |Branches(r, d, raw)|);
      JoinedUpTo(groups, |groups|)
    else if d.List? then ItemSlots(r, d, Entered(r, d, raw), path, |d.items|)
    else
      match r.members(Entered(r, d, raw))
      case Some(schemas) => MemberSlots(r, d, schemas, path, |d.entries|)
      case None => EntrySlots(r, d, Entered(r, d, raw), path, |d.entries|)
  }

  function BranchGroups(r: Reader, d: Data, raw: Node, path: string, i: nat): seq<Group>
    requires r.Ranked() && i <= |Branches(r, d, raw)|
    decreases d, r.rank(raw), 1, i
  {
    if i == 0 then []
    else
      var branch := Branches(r, d, raw)[i - 1];
      assert branch in r.fits(r.resolve(raw), d).value;
      var slots := Slots(r, d, branch, path);
      HoldAll(BranchGroups(r, d, raw, path, i - 1), slots, |slots|)
  }

  /** The slots of one child, for each schema declared for it. */
  function ChildSlots(r: Reader, d: Data, child: Data, declared: seq<Node>, path: string, i: nat): seq<Slot>
    requires r.Ranked() && child < d && i <= |declared|
    decreases d, 0, 0, i
  {
    if i == 0 then [] else ChildSlots(r, d, child, declared, path, i - 1) + Slots(r, child, declared[i - 1], path)
  }

  function ItemReadings(r: Reader, entered: Node): seq<Node> {
    OrElse(ItemDeclared(r, ConjunctsOf(r, entered)), r.open(entered))
  }

  function ItemSlots(r: Reader, d: Data, entered: Node, path: string, i: nat): seq<Slot>
    requires r.Ranked() && d.List? && i <= |d.items|
    decreases d, 0, 1, i
  {
    if i == 0 then []
    else
      var readings := ItemReadings(r, entered);
      ItemSlots(r, d, entered, path, i - 1)
      + ChildSlots(r, d, d.items[i - 1], readings, Child(path, Index(i - 1)), |readings|)
  }

  function EntryReadings(r: Reader, entered: Node, key: string): seq<Node> {
    var conjuncts := ConjunctsOf(r, entered);
    OrElse(PropertyDeclared(r, conjuncts, key), MapValue(r, conjuncts, entered))
  }

  function EntrySlots(r: Reader, d: Data, entered: Node, path: string, i: nat): seq<Slot>
    requires r.Ranked() && d.Map? && i <= |d.entries|
    decreases d, 0, 1, i
  {
    if i == 0 then []
    else
      EntrySmaller(d, i - 1);
      var readings := EntryReadings(r, entered, d.entries[i - 1].0);
      EntrySlots(r, d, entered, path, i - 1)
      + ChildSlots(r, d, d.entries[i - 1].1, readings, Child(path, Name(d.entries[i - 1].0)), |readings|)
  }

  /** The slots of a value type's members; what is no member has none. */
  function MemberSlots(r: Reader, d: Data, schemas: map<string, Node>, path: string, i: nat): seq<Slot>
    requires r.Ranked() && d.Map? && i <= |d.entries|
    decreases d, 0, 1, i
  {
    if i == 0 then []
    else
      EntrySmaller(d, i - 1);
      var e := d.entries[i - 1];
      MemberSlots(r, d, schemas, path, i - 1)
      + if e.0 in schemas then Slots(r, e.1, schemas[e.0], Child(path, Name(e.0))) else []
  }

  // --- The walk --------------------------------------------------------------------------------------

  /** The slots of an object's known members; an unknown key is passed over. */
  method KnownMemberSlots(r: Reader, d: Data, schemas: map<string, Node>, path: string) returns (slots: seq<Slot>)
    requires r.Ranked() && d.Map?
    ensures slots == MemberSlots(r, d, schemas, path, |d.entries|)
    decreases d, 0, 1, 0
  {
    slots := [];
    for i := 0 to |d.entries|
      invariant slots == MemberSlots(r, d, schemas, path, i)
    {
      EntrySmaller(d, i);
      var e := d.entries[i];
      if e.0 in schemas {
        var more := DeclaredCelSlots(r, e.1, schemas[e.0], Child(path, Name(e.0)));
        slots := slots + more;
      }
    }
  }

  method DeclaredCelSlots(r: Reader, d: Data, raw: Node, path: string) returns (slots: seq<Slot>)
    requires r.Ranked()
    ensures slots == Slots(r, d, raw, path)
    decreases d, r.rank(raw), 2, 0
  {
    if d.Cel? {
      return [Slot(path, Declared(raw))];
    }
    if !IsObject(d) {
      return [];
    }
    var branches := Branches(r, d, raw);
    if |branches| > 0 {
      slots := UnionSlots(r, d, raw, path);
      return;
    }
    var entered := Entered(r, d, raw);
    if d.List? {
      slots := DeclaredItemSlots(r, d, entered, path);
      return;
    }
    var members := r.members(entered);
    if members.Some? {
      slots := KnownMemberSlots(r, d, members.value, path);
      return;
    }
    slots := DeclaredEntrySlots(r, d, entered, path);
  }

  /** Each item, under every schema that declares it. */
  method DeclaredItemSlots(r: Reader, d: Data, entered: Node, path: string) returns (slots: seq<Slot>)
    requires r.Ranked() && d.List?
    ensures slots == ItemSlots(r, d, entered, path, |d.items|)
    decreases d, 0, 1
  {
    slots := [];
    var readings := ItemReadings(r, entered);
    for i := 0 to |d.items|
      invariant slots == ItemSlots(r, d, entered, path, i)
    {
      var more := DeclaredChildSlots(r, d, d.items[i], readings, Child(path, Index(i)));
      slots := slots + more;
    }
  }

  /** Each entry, under every schema that declares its key. */
  method DeclaredEntrySlots(r: Reader, d: Data, entered: Node, path: string) returns (slots: seq<Slot>)
    requires r.Ranked() && d.Map?
    ensures slots == EntrySlots(r, d, entered, path, |d.entries|)
    decreases d, 0, 1
  {
    slots := [];
    for i := 0 to |d.entries|
      invariant slots == EntrySlots(r, d, entered, path, i)
    {
      EntrySmaller(d, i);
      var e := d.entries[i];
      var more := DeclaredChildSlots(r, d, e.1, EntryReadings(r, entered, e.0), Child(path, Name(e.0)));
      slots := slots + more;
    }
  }

  method DeclaredChildSlots(r: Reader, ghost d: Data, child: Data, declared: seq<Node>, path: string)
    returns (slots: seq<Slot>)
    requires r.Ranked() && child < d
    ensures slots == ChildSlots(r, d, child, declared, path, |declared|)
    decreases d, 0, 0
  {
    slots := [];
    var i := 0;
    while i < |declared|
      invariant i <= |declared| && slots == ChildSlots(r, d, child, declared, path, i)
    {
      var more := DeclaredCelSlots(r, child, declared[i], path);
      slots := slots + more;
      i := i + 1;
    }
  }

  /** The slots of a branch, each held at its path unless its schema is held there already. */
  method HoldSlots(groups: seq<Group>, found: seq<Slot>) returns (byPath: seq<Group>)
    ensures byPath == HoldAll(groups, found, |found|)
  {
    byPath := groups;
    for j := 0 to |found|
      invariant byPath == HoldAll(groups, found, j)
    {
      byPath := Hold(byPath, found[j]);
    }
  }

  method JoinSlots(byPath: seq<Group>) returns (slots: seq<Slot>)
    ensures slots == JoinedUpTo(byPath, |byPath|)
  {
    slots := [];
    for i := 0 to |byPath|
      invariant slots == JoinedUpTo(byPath, i)
    {
      slots := slots + [Joined(byPath[i])];
    }
  }

  /** The slots of the next branch, gathered beside those before it. */
  method GatherBranch(r: Reader, d: Data, raw: Node, path: string, i: nat, byPath: seq<Group>)
    returns (next: seq<Group>)
    requires r.Ranked() && i < |Branches(r, d, raw)| && byPath == BranchGroups(r, d, raw, path, i)
    ensures next == BranchGroups(r, d, raw, path, i + 1)
    decreases d, r.rank(raw), 0, 0
  {
    var branch := Branches(r, d, raw)[i];
    assert branch in r.fits(r.resolve(raw), d).value;
    var found := DeclaredCelSlots(r, d, branch, path);
    next := HoldSlots(byPath, found);
  }

  /** Every fitting branch, its slots gathered by path. */
  method GatherBranches(r: Reader, d: Data, raw: Node, path: string) returns (byPath: seq<Group>)
    requires r.Ranked() && IsObject(d)
    ensures byPath == BranchGroups(r, d, raw, path, |Branches(r, d, raw)|)
    decreases d, r.rank(raw), 0, 1
  {
    byPath := [];
    for i := 0 to |Branches(r, d, raw)|
      invariant byPath == BranchGroups(r, d, raw, path, i)
    {
      byPath := GatherBranch(r, d, raw, path, i, byPath);
    }
  }

  /** An ambiguous union: what its branches hold at each path, joined. */
  method UnionSlots(r: Reader, d: Data, raw: Node, path: string) returns (slots: seq<Slot>)
    requires r.Ranked() && IsObject(d) && Branches(r, d, raw) != []
    ensures slots == Slots(r, d, raw, path)
    decreases d, r.rank(raw), 1
  {
    var byPath := GatherBranches(r, d, raw, path);
    slots := JoinSlots(byPath);
  }

  /** The slots as they are judged, each with the shape its declaration names. */
  method CollectCelValueSlots(r: Reader, data: Data, schema: Node, path: string) returns (slots: seq<Slot>)
    requires r.Ranked()
    ensures |slots| == |Slots(r, data, schema, path)|
    ensures forall i :: 0 <= i < |slots| ==>
              slots[i] == Slot(Slots(r, data, schema, path)[i].path, Named(Slots(r, data, schema, path)[i].schema))
  {
    var found := DeclaredCelSlots(r, data, schema, path);
    slots := seq(|found|, i requires 0 <= i < |found| => Slot(found[i].path, Named(found[i].schema)));
  }
}
