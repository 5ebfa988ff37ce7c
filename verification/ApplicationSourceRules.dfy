/**
 * What the strict check accepts, said without its functions: where a schema may hold another,
 * which schema is annotated and from where, and what its annotation must be.
 */
module ApplicationSourceRules {
  import opened ApplicationSource
  import opened ApplicationSourceAnnotation
  import opened ApplicationSourceStrict
  import opened JsonPointer
  import opened ObjectGraph
  import opened PathText
  import opened Prelude

  // --- A schema within a schema --------------------------------------------------------------------

  const NAMED_SCHEMAS := {"properties", "patternProperties", "$defs", "definitions"}

  const ONE_SCHEMA := {"additionalProperties", "items", "contains", "propertyNames", "not", "if", "then", "else"}

  const LISTED_SCHEMAS := {"oneOf", "anyOf", "allOf", "items"}

  /** A value of a plain object of schemas; under the root's `properties` it is a top-level property. */
  ghost predicate NamedIn(h: Heap, o: Obj, isRoot: bool, key: string, i: nat, s: Sub)
    requires o.Record?
  {
    && key in NAMED_SCHEMAS && IsPlain(h, Get(o, key)) && i < |h[Get(o, key).id].entries|
    && var entry := h[Get(o, key).id].entries[i];
       s == Sub(entry.1, [Name(key), Name(entry.0)], if isRoot && key == "properties" then Some(entry.0) else None)
  }

  /** An item of a list of schemas. */
  ghost predicate ListedIn(h: Heap, o: Obj, key: string, i: nat, s: Sub)
    requires o.Record?
  {
    && key in LISTED_SCHEMAS && Get(o, key).Ref? && Get(o, key).id in h && h[Get(o, key).id].List?
    && i < |h[Get(o, key).id].items| && s == Sub(h[Get(o, key).id].items[i], [Name(key), Index(i)], None)
  }

  /** What stands where an object may hold a schema. */
  ghost predicate HoldsSchema(h: Heap, o: Obj, isRoot: bool, s: Sub)
    requires o.Record?
  {
    || (exists key, i: nat :: NamedIn(h, o, isRoot, key, i, s))
    || (exists key :: key in ONE_SCHEMA && s == Sub(Get(o, key), [Name(key)], None))
    || (exists key, i: nat :: ListedIn(h, o, key, i, s))
  }

  lemma KeysExactly(key: string)
    ensures key in NAMED_SCHEMAS <==> key in SCHEMA_MAPS
    ensures key in ONE_SCHEMA <==> key in SCHEMA_VALUES
    ensures key in LISTED_SCHEMAS <==> key in SCHEMA_LISTS
  {
    assert forall i :: 0 <= i < |SCHEMA_MAPS| ==> SCHEMA_MAPS[i] in NAMED_SCHEMAS;
    assert forall i :: 0 <= i < |SCHEMA_VALUES| ==> SCHEMA_VALUES[i] in ONE_SCHEMA;
    assert forall i :: 0 <= i < |SCHEMA_LISTS| ==> SCHEMA_LISTS[i] in LISTED_SCHEMAS;
    assert SCHEMA_MAPS[0] == "properties" && SCHEMA_MAPS[1] == "patternProperties" && SCHEMA_MAPS[2] == "$defs"
        && SCHEMA_MAPS[3] == "definitions";
    assert SCHEMA_VALUES[0] == "additionalProperties" && SCHEMA_VALUES[1] == "items" && SCHEMA_VALUES[2] == "contains"
        && SCHEMA_VALUES[3] == "propertyNames" && SCHEMA_VALUES[4] == "not" && SCHEMA_VALUES[5] == "if"
        && SCHEMA_VALUES[6] == "then" && SCHEMA_VALUES[7] == "else";
    assert SCHEMA_LISTS[0] == "oneOf" && SCHEMA_LISTS[1] == "anyOf" && SCHEMA_LISTS[2] == "allOf"
        && SCHEMA_LISTS[3] == "items";
  }

  lemma InMapExactly(h: Heap, id: Id, key: string, root: Id, isRoot: bool, s: Sub)
    requires id in h && h[id].Record? && key in NAMED_SCHEMAS && isRoot == (id == root)
    ensures s in SubsInMap(h, id, key, root) <==> exists i: nat :: NamedIn(h, h[id], isRoot, key, i, s)
  {
    var subs := SubsInMap(h, id, key, root);
    if s in subs {
      var i :| 0 <= i < |subs| && subs[i] == s;
      assert NamedIn(h, h[id], isRoot, key, i, s);
    }
    if i: nat :| NamedIn(h, h[id], isRoot, key, i, s) {
      assert subs[i] == s;
    }
  }

  ghost predicate InMap(h: Heap, id: Id, root: Id, k: int, s: Sub)
    requires id in h && h[id].Record?
  {
    0 <= k < |SCHEMA_MAPS| && s in SubsInMap(h, id, SCHEMA_MAPS[k], root)
  }

  lemma {:induction false} MapsExactly(h: Heap, id: Id, root: Id, n: nat, s: Sub)
    requires id in h && h[id].Record? && n <= |SCHEMA_MAPS|
    ensures s in MapsFrom(h, id, root, n) <==> exists k :: n <= k && InMap(h, id, root, k, s)
    decreases |SCHEMA_MAPS| - n
  {
    if n < |SCHEMA_MAPS| {
      MapsExactly(h, id, root, n + 1, s);
      assert s in MapsFrom(h, id, root, n) <==> InMap(h, id, root, n, s) || s in MapsFrom(h, id, root, n + 1);
    }
  }

  lemma InListExactly(h: Heap, id: Id, key: string, s: Sub)
    requires id in h && h[id].Record? && key in LISTED_SCHEMAS
    ensures s in SubsInList(h, id, key) <==> exists i: nat :: ListedIn(h, h[id], key, i, s)
  {
    var subs := SubsInList(h, id, key);
    if s in subs {
      var i :| 0 <= i < |subs| && subs[i] == s;
      assert ListedIn(h, h[id], key, i, s);
    }
    if i: nat :| ListedIn(h, h[id], key, i, s) {
      assert subs[i] == s;
    }
  }

  ghost predicate InList(h: Heap, id: Id, k: int, s: Sub)
    requires id in h && h[id].Record?
  {
    0 <= k < |SCHEMA_LISTS| && s in SubsInList(h, id, SCHEMA_LISTS[k])
  }

  lemma {:induction false} ListsExactly(h: Heap, id: Id, n: nat, s: Sub)
    requires id in h && h[id].Record? && n <= |SCHEMA_LISTS|
    ensures s in ListsFrom(h, id, n) <==> exists k :: n <= k && InList(h, id, k, s)
    decreases |SCHEMA_LISTS| - n
  {
    if n < |SCHEMA_LISTS| {
      ListsExactly(h, id, n + 1, s);
      assert s in ListsFrom(h, id, n) <==> InList(h, id, n, s) || s in ListsFrom(h, id, n + 1);
    }
  }

  lemma MapsHeld(h: Heap, id: Id, root: Id, isRoot: bool, s: Sub)
    requires id in h && h[id].Record? && isRoot == (id == root)
    ensures s in MapsFrom(h, id, root, 0) <==> exists key, i: nat :: NamedIn(h, h[id], isRoot, key, i, s)
  {
    MapsExactly(h, id, root, 0, s);
    if k :| 0 <= k && InMap(h, id, root, k, s) {
      KeysExactly(SCHEMA_MAPS[k]);
      InMapExactly(h, id, SCHEMA_MAPS[k], root, isRoot, s);
    }
    if key, i: nat :| NamedIn(h, h[id], isRoot, key, i, s) {
      KeysExactly(key);
      InMapExactly(h, id, key, root, isRoot, s);
      var k :| 0 <= k < |SCHEMA_MAPS| && SCHEMA_MAPS[k] == key;
      assert InMap(h, id, root, k, s);
    }
  }

  lemma ListsHeld(h: Heap, id: Id, s: Sub)
    requires id in h && h[id].Record?
    ensures s in ListsFrom(h, id, 0) <==> exists key, i: nat :: ListedIn(h, h[id], key, i, s)
  {
    ListsExactly(h, id, 0, s);
    if k :| 0 <= k && InList(h, id, k, s) {
      KeysExactly(SCHEMA_LISTS[k]);
      InListExactly(h, id, SCHEMA_LISTS[k], s);
    }
    if key, i: nat :| ListedIn(h, h[id], key, i, s) {
      KeysExactly(key);
      InListExactly(h, id, key, s);
      var k :| 0 <= k < |SCHEMA_LISTS| && SCHEMA_LISTS[k] == key;
      assert InList(h, id, k, s);
    }
  }

  lemma ValuesHeld(h: Heap, id: Id, s: Sub)
    requires id in h && h[id].Record?
    ensures s in SubValues(h, id) <==> exists key :: key in ONE_SCHEMA && s == Sub(Get(h[id], key), [Name(key)], None)
  {
    var subs := SubValues(h, id);
    if s in subs {
      var k :| 0 <= k < |subs| && subs[k] == s;
      KeysExactly(SCHEMA_VALUES[k]);
    }
    if key :| key in ONE_SCHEMA && s == Sub(Get(h[id], key), [Name(key)], None) {
      KeysExactly(key);
      var k :| 0 <= k < |SCHEMA_VALUES| && SCHEMA_VALUES[k] == key;
      assert subs[k] == s;
    }
  }

  /** The walk goes on from a schema to exactly what stands where it may hold one. */
  lemma SubschemasExactly(h: Heap, id: Id, root: Id, s: Sub)
    requires id in h && h[id].Record?
    ensures s in Subschemas(h, id, root) <==> HoldsSchema(h, h[id], id == root, s)
  {
    MapsHeld(h, id, root, id == root, s);
    ValuesHeld(h, id, s);
    ListsHeld(h, id, s);
    assert s in Subschemas(h, id, root) <==>
           (s in MapsFrom(h, id, root, 0) || s in SubValues(h, id) || s in ListsFrom(h, id, 0));
  }

  // --- The ways to a schema ----------------------------------------------------------------------------

  /** Steps from the root, each into a plain object held where a schema may be. */
  ghost predicate Way(h: Heap, root: Id, steps: seq<Step>, id: Id) {
    && id in h && h[id].Record? && h[id].plain
    && if |steps| == 0 then id == root
       else
         var last := steps[|steps| - 1];
         && last.from in h && h[last.from].Record? && HoldsSchema(h, h[last.from], last.from == root, last.sub)
         && last.sub.child == Ref(id) && Way(h, root, steps[..|steps| - 1], last.from)
  }

  lemma {:induction false} WayExactly(h: Heap, root: Id, steps: seq<Step>, id: Id)
    ensures Way(h, root, steps, id) <==> Leads(h, root, steps, id)
  {
    if |steps| > 0 {
      var last := steps[|steps| - 1];
      WayExactly(h, root, steps[..|steps| - 1], last.from);
      if last.from in h && h[last.from].Record? {
        SubschemasExactly(h, last.from, root, last.sub);
      }
    }
  }

  ghost predicate WithinRoot(h: Heap, root: Id, id: Id) {
    exists steps :: Way(h, root, steps, id)
  }

  lemma ReachedExactly(h: Heap, root: Id, id: Id)
    ensures WithinRoot(h, root, id) <==> Reachable(h, root, id)
  {
    if steps :| Way(h, root, steps, id) {
      WayExactly(h, root, steps, id);
    }
    if steps :| Leads(h, root, steps, id) {
      WayExactly(h, root, steps, id);
    }
  }

  /** A way that starts at top-level property `j` and does not come back to the root. */
  ghost predicate ThroughProperty(h: Heap, root: Id, properties: seq<(string, Val)>, j: nat, steps: seq<Step>, id: Id) {
    && j < |properties| && Way(h, root, steps, id) && |steps| > 0
    && steps[0] == Step(root, Sub(properties[j].1, [Name("properties"), Name(properties[j].0)], Some(properties[j].0)))
    && forall k :: 0 < k < |steps| ==> steps[k].from != root
  }

  /** The entries of the root's `properties`. */
  ghost predicate TopLevel(h: Heap, root: Id, properties: seq<(string, Val)>) {
    && root in h && h[root].Record? && h[root].plain
    && IsPlain(h, Get(h[root], "properties")) && properties == h[Get(h[root], "properties").id].entries
  }

  /** Property `i` is the schema; none before it is, or leads to it. */
  ghost predicate MetAt(h: Heap, root: Id, properties: seq<(string, Val)>, i: nat, name: string, id: Id) {
    && i < |properties| && properties[i] == (name, Ref(id))
    && (forall j: nat :: j < i ==> properties[j].1 != Ref(id))
    && forall j: nat, steps :: j < i ==> !ThroughProperty(h, root, properties, j, steps, id)
  }

  ghost predicate MetFirst(h: Heap, root: Id, name: string, id: Id) {
    id != root && exists properties, i: nat :: TopLevel(h, root, properties) && MetAt(h, root, properties, i, name, id)
  }

  lemma ThroughExactly(h: Heap, root: Id, properties: seq<(string, Val)>, j: nat, steps: seq<Step>, id: Id)
    requires TopLevel(h, root, properties) && j < |properties|
    ensures ThroughProperty(h, root, properties, j, steps, id) <==> Through(h, root, j, steps, id)
  {
    assert HasProperties(h, Ref(root)) && PropertiesOf(h, Ref(root)) == properties;
    TopLevelAll(h, root, j);
    WayExactly(h, root, steps, id);
  }

  lemma MetExactly(h: Heap, root: Id, properties: seq<(string, Val)>, i: nat, name: string, id: Id)
    requires TopLevel(h, root, properties)
    ensures MetAt(h, root, properties, i, name, id) <==> ForemostAt(h, root, i, name, id)
  {
    assert PropertiesOf(h, Ref(root)) == properties;
    forall j: nat, steps | j < i && j < |properties|
      ensures ThroughProperty(h, root, properties, j, steps, id) <==> Through(h, root, j, steps, id)
    {
      ThroughExactly(h, root, properties, j, steps, id);
    }
  }

  lemma MetFirstExactly(h: Heap, root: Id, name: string, id: Id)
    ensures MetFirst(h, root, name, id) <==> Foremost(h, root, name, id)
  {
    if properties, i: nat :| id != root && TopLevel(h, root, properties) && MetAt(h, root, properties, i, name, id) {
      MetExactly(h, root, properties, i, name, id);
    }
    if Foremost(h, root, name, id) {
      var properties := PropertiesOf(h, Ref(root));
      var i: int :| ForemostAt(h, root, i, name, id);
      assert TopLevel(h, root, properties);
      MetExactly(h, root, properties, i, name, id);
    }
  }

  // --- The annotation -----------------------------------------------------------------------------------

  /** The object has the annotation as a key of its own. */
  ghost predicate IsAnnotated(h: Heap, id: Id) {
    && id in h && h[id].Record?
    && exists i :: 0 <= i < |h[id].entries| && h[id].entries[i].0 == "x-telo-application-source"
  }

  lemma AnnotatedExactly(h: Heap, id: Id)
    ensures IsAnnotated(h, id) <==> Writes(h, id)
  {
    assert "x-telo-application-source" !in INHERITED;
  }

  const FED := {"variables", "secrets", "ports", "needs"}

  /** A block is not written, or is a pointer to a declared property that is not the source's own. */
  ghost predicate PointsWell(h: Heap, root: Id, raw: Obj, block: string, field: string)
    requires raw.Record?
  {
    || Get(raw, block) == Undefined
    || exists pointer, segments, parts ::
         && Get(raw, block) == Text(pointer) && PointsWith(pointer, parts, segments)
         && segments != [field] && Declares(h, Ref(root), segments)
  }

  /**
   * A string that is written, not computed, with an object of pointers: known blocks only, each
   * with a pointer of its own.
   */
  ghost predicate Faultless(h: Heap, root: Id, o: Obj, field: string)
    requires o.Record?
  {
    && Get(o, "type") == Text("string") && (forall i :: 0 <= i < |o.entries| ==> o.entries[i].0 != "x-telo-eval")
    && var raw := Get(o, "x-telo-application-source");
       && IsPlain(h, raw)
       && (forall i :: 0 <= i < |h[raw.id].entries| ==> h[raw.id].entries[i].0 in FED)
       && (forall b :: b in FED ==> PointsWell(h, root, h[raw.id], b, field))
       && (forall b, c :: b in FED && c in FED && b != c && Get(h[raw.id], b) != Undefined ==>
             Get(h[raw.id], b) != Get(h[raw.id], c))
  }

  lemma BlocksExactly(b: string)
    ensures b in FED <==> b in BLOCKS
  {
    assert BLOCKS[0] == "variables" && BLOCKS[1] == "secrets" && BLOCKS[2] == "ports" && BLOCKS[3] == "needs";
    assert forall i :: 0 <= i < |BLOCKS| ==> BLOCKS[i] in FED;
  }

  lemma PointsExactly(h: Heap, root: Id, raw: Obj, block: string, field: string)
    requires raw.Record?
    ensures PointsWell(h, root, raw, block, field) <==> Points(h, Ref(root), raw, block, field)
  {
    var value := Get(raw, block);
    if value != Undefined && Points(h, Ref(root), raw, block, field) {
      var segments := SegmentsOf(value).value;
      SegmentsExactly(value.text, segments);
      var parts :| PointsWith(value.text, parts, segments);
    }
    if pointer, segments, parts :|
      value == Text(pointer) && PointsWith(pointer, parts, segments) && segments != [field]
      && Declares(h, Ref(root), segments)
    {
      SegmentsExactly(pointer, segments);
    }
  }

  /** The segments a block is given, when what it holds is a pointer. */
  ghost predicate Gives(raw: Obj, block: string, segments: seq<string>)
    requires raw.Record?
  {
    exists pointer, parts :: Get(raw, block) == Text(pointer) && PointsWith(pointer, parts, segments)
  }

  lemma GivesExactly(raw: Obj, block: string, segments: seq<string>)
    requires raw.Record?
    ensures Gives(raw, block, segments) <==> SegmentsOf(Get(raw, block)) == Some(segments)
  {
    if Get(raw, block).Text? {
      SegmentsExactly(Get(raw, block).text, segments);
    }
  }

  /** Block `i` is the first that is given the value. */
  ghost predicate FirstGiven(raw: Obj, blocks: seq<string>, value: Val, i: nat)
    requires raw.Record?
  {
    i < |blocks| && Get(raw, blocks[i]) == value && forall j :: 0 <= j < i ==> Get(raw, blocks[j]) != value
  }

  /** What a text is refused for, wherever it is given. */
  ghost predicate Accepts(h: Heap, root: Val, pointer: string, field: string) {
    && PointerSegments(pointer).Some? && PointerSegments(pointer).value != [field]
    && Declares(h, root, PointerSegments(pointer).value)
  }

  /** The pointers taken are those that are accepted, each for the block that is given it first. */
  lemma {:induction false} TargetsExactly(h: Heap, root: Val, raw: Obj, field: string, blocks: seq<string>, n: nat,
          p: string)
    requires raw.Record? && n <= |blocks|
    ensures var targets := Targets(h, root, raw, field, blocks, n);
            && (p in targets <==> Accepts(h, root, p, field) && Written(raw, blocks, n, p))
            && (p in targets ==> exists i: nat ::
                  i < n && FirstGiven(raw, blocks, Text(p), i) && targets[p] == blocks[i])
  {
    if n > 0 {
      TargetsExactly(h, root, raw, field, blocks, n - 1, p);
      WrittenNext(raw, blocks, n, p);
      TargetNext(h, root, raw, field, blocks, n, p);
    }
  }

  lemma WrittenNext(raw: Obj, blocks: seq<string>, n: nat, p: string)
    requires raw.Record? && 0 < n <= |blocks|
    ensures Written(raw, blocks, n, p) <==> Written(raw, blocks, n - 1, p) || Get(raw, blocks[n - 1]) == Text(p)
    ensures Written(raw, blocks, n, p) && !Written(raw, blocks, n - 1, p) ==>
              FirstGiven(raw, blocks, Text(p), n - 1)
  {
    if i :| 0 <= i < n && Get(raw, blocks[i]) == Text(p) {
      assert i < n - 1 ==> Written(raw, blocks, n - 1, p);
    }
  }

  /** A pointer is taken where it is accepted and not taken yet; what is taken stays. */
  lemma TargetNext(h: Heap, root: Val, raw: Obj, field: string, blocks: seq<string>, n: nat, p: string)
    requires raw.Record? && 0 < n <= |blocks|
    ensures var before, after := Targets(h, root, raw, field, blocks, n - 1), Targets(h, root, raw, field, blocks, n);
            && (p in after <==> p in before || (Get(raw, blocks[n - 1]) == Text(p) && Accepts(h, root, p, field)))
            && (p in after ==> after[p] == if p in before then before[p] else blocks[n - 1])
  {
  }

  lemma PointerFaults(h: Heap, root: Id, raw: Obj, field: string, block: string, targets: map<string, string>)
    requires raw.Record?
    ensures var fault := BlockFault(h, Ref(root), raw, block, field, targets);
            && (fault == Some(NotAPointer) <==>
                  Get(raw, block) != Undefined && forall segments :: !Gives(raw, block, segments))
            && (fault == Some(SourceItself) <==> Gives(raw, block, [field]))
            && (fault == Some(Undeclared) <==> exists segments ::
                  Gives(raw, block, segments) && segments != [field] && !Declares(h, Ref(root), segments))
  {
    forall segments ensures Gives(raw, block, segments) <==> SegmentsOf(Get(raw, block)) == Some(segments) {
      GivesExactly(raw, block, segments);
    }
  }

  /** A pointer that points well is refused exactly when it is taken. */
  lemma TakenFault(h: Heap, root: Id, raw: Obj, field: string, block: string, targets: map<string, string>)
    requires raw.Record?
    ensures var fault, value := BlockFault(h, Ref(root), raw, block, field, targets), Get(raw, block);
            && (fault.None? <==>
                  PointsWell(h, root, raw, block, field) && (value.Text? ==> value.text !in targets))
            && forall b :: fault == Some(Shared(b)) <==>
                 PointsWell(h, root, raw, block, field) && value.Text? && value.text in targets
                 && targets[value.text] == b
  {
    PointsExactly(h, root, raw, block, field);
  }

  /** A pointer that points well is taken exactly by the first block that is given it. */
  lemma TakenExactly(h: Heap, root: Id, raw: Obj, field: string, blocks: seq<string>, n: nat, i: nat)
    requires raw.Record? && i < n < |blocks| && Get(raw, blocks[n]).Text?
    requires forall i, j :: 0 <= i < j < |blocks| ==> blocks[i] != blocks[j]
    requires PointsWell(h, root, raw, blocks[n], field)
    ensures var value, targets := Get(raw, blocks[n]), Targets(h, Ref(root), raw, field, blocks, n);
            && (value.text in targets <==> Written(raw, blocks, n, value.text))
            && (value.text in targets && targets[value.text] == blocks[i] <==> FirstGiven(raw, blocks, value, i))
  {
    var value, targets := Get(raw, blocks[n]), Targets(h, Ref(root), raw, field, blocks, n);
    PointsExactly(h, root, raw, blocks[n], field);
    TargetsExactly(h, Ref(root), raw, field, blocks, n, value.text);
    if value.text in targets {
      var k: nat :| k < n && FirstGiven(raw, blocks, value, k) && targets[value.text] == blocks[k];
      if FirstGiven(raw, blocks, value, i) {
        assert k == i;
      }
      if blocks[k] == blocks[i] {
        assert !(k < i) && !(i < k);
      }
    }
  }

  /**
   * What a block's pointer is refused for. Of the five cases exactly one applies: nothing is wrong,
   * no pointer, the source itself, undeclared, or given to an earlier block, whose name is reported.
   */
  lemma BlockFaultExactly(h: Heap, root: Id, raw: Obj, field: string, blocks: seq<string>, n: nat)
    requires raw.Record? && n < |blocks|
    requires forall i, j :: 0 <= i < j < |blocks| ==> blocks[i] != blocks[j]
    ensures var fault, value := BlockFault(h, Ref(root), raw, blocks[n], field,
                Targets(h, Ref(root), raw, field, blocks, n)), Get(raw, blocks[n]);
            && (fault.None? <==>
                  PointsWell(h, root, raw, blocks[n], field)
                  && (value != Undefined ==> forall i :: 0 <= i < n ==> Get(raw, blocks[i]) != value))
            && (fault == Some(NotAPointer) <==>
                  value != Undefined && forall segments :: !Gives(raw, blocks[n], segments))
            && (fault == Some(SourceItself) <==> Gives(raw, blocks[n], [field]))
            && (fault == Some(Undeclared) <==> exists segments ::
                  Gives(raw, blocks[n], segments) && segments != [field] && !Declares(h, Ref(root), segments))
            && forall i: nat :: i < n ==> (fault == Some(Shared(blocks[i])) <==>
                  value != Undefined && PointsWell(h, root, raw, blocks[n], field)
                  && FirstGiven(raw, blocks, value, i))
  {
    var value, targets := Get(raw, blocks[n]), Targets(h, Ref(root), raw, field, blocks, n);
    PointerFaults(h, root, raw, field, blocks[n], targets);
    TakenFault(h, root, raw, field, blocks[n], targets);
    if PointsWell(h, root, raw, blocks[n], field) && value.Text? {
      forall i: nat | i < n
        ensures value.text in targets <==> Written(raw, blocks, n, value.text)
        ensures value.text in targets && targets[value.text] == blocks[i] <==> FirstGiven(raw, blocks, value, i)
      {
        TakenExactly(h, root, raw, field, blocks, n, i);
      }
    }
  }

  ghost predicate BlockAt(h: Heap, root: Id, raw: Obj, path: Path, field: string, blocks: seq<string>, i: nat,
          problem: Problem)
    requires raw.Record?
  {
    && i < |blocks| && problem.path == path + [Name(blocks[i])]
    && BlockFault(h, Ref(root), raw, blocks[i], field, Targets(h, Ref(root), raw, field, blocks, i)) ==
       Some(problem.fault)
  }

  /** Each fault reported is that of a block, at its key. */
  lemma {:induction false} ReportedAt(h: Heap, root: Id, raw: Obj, path: Path, field: string, blocks: seq<string>,
          n: nat, problem: Problem) returns (i: nat)
    requires raw.Record? && n <= |blocks| && problem in BlockFaults(h, Ref(root), raw, path, field, blocks, n)
    ensures i < n && BlockAt(h, root, raw, path, field, blocks, i, problem)
  {
    i := n - 1;
    if problem in BlockFaults(h, Ref(root), raw, path, field, blocks, n - 1) {
      i := ReportedAt(h, root, raw, path, field, blocks, n - 1, problem);
    }
  }

  /** The next block adds its fault, if it has one, to those before. */
  lemma ReportedNext(h: Heap, root: Id, raw: Obj, path: Path, field: string, blocks: seq<string>, n: nat,
          problem: Problem)
    requires raw.Record? && n < |blocks|
    requires problem in BlockFaults(h, Ref(root), raw, path, field, blocks, n)
             || BlockAt(h, root, raw, path, field, blocks, n, problem)
    ensures problem in BlockFaults(h, Ref(root), raw, path, field, blocks, n + 1)
  {
  }

  /** And each block's fault is reported. */
  lemma BlockReported(h: Heap, root: Id, raw: Obj, path: Path, field: string, blocks: seq<string>,
          n: nat, i: nat, problem: Problem)
    requires raw.Record? && i < n <= |blocks| && BlockAt(h, root, raw, path, field, blocks, i, problem)
    ensures problem in BlockFaults(h, Ref(root), raw, path, field, blocks, n)
  {
    ReportedNext(h, root, raw, path, field, blocks, i, problem);
    for k := i + 1 to n
      invariant problem in BlockFaults(h, Ref(root), raw, path, field, blocks, k)
    {
      ReportedNext(h, root, raw, path, field, blocks, k, problem);
    }
  }

  /** The unknown keys are the entries' keys, in order, without the four blocks. */
  lemma {:induction false} UnknownInOrder(a: seq<(string, Val)>, b: seq<(string, Val)>)
    ensures Unknown(a + b) == Unknown(a) + Unknown(b)
  {
    if |a| == 0 {
      assert a + b == b;
    } else {
      UnknownInOrder(a[1..], b);
      assert (a + b)[1..] == a[1..] + b && (a + b)[0] == a[0];
      Regroup3(if a[0].0 in BLOCKS then [] else [a[0].0], Unknown(a[1..]), Unknown(b));
    }
  }

  lemma UnknownOne(entry: (string, Val))
    ensures Unknown([entry]) == if entry.0 in FED then [] else [entry.0]
  {
    BlocksExactly(entry.0);
    assert [entry][1..] == [];
  }

  /** What an annotation on the top-level property `field` is reported for, and where. */
  ghost predicate FaultAt(h: Heap, root: Id, o: Obj, path: Path, field: string, problem: Problem)
    requires o.Record?
  {
    var raw, at, fault := Get(o, "x-telo-application-source"), problem.path, problem.fault;
    var annotation := path + [Name("x-telo-application-source")];
    || (fault == NotAString && at == path + [Name("type")] && Get(o, "type") != Text("string"))
    || (fault == Evaluated && at == path + [Name("x-telo-eval")] && Own(o, "x-telo-eval"))
    || (fault == NotAnObject && at == annotation && !IsPlain(h, raw))
    || (IsPlain(h, raw) && at == annotation && Unknown(h[raw.id].entries) != []
        && fault == UnknownKeys(Unknown(h[raw.id].entries)))
    || (IsPlain(h, raw) && exists i: nat :: BlockAt(h, root, h[raw.id], annotation, field, BLOCKS, i, problem))
  }

  lemma FaultsExactly(h: Heap, root: Id, o: Obj, path: Path, field: string, problem: Problem)
    requires o.Record?
    ensures problem in AnnotationFaults(h, Ref(root), o, path, field) <==>
            FaultAt(h, root, o, path, field, problem)
  {
    assert "x-telo-eval" !in INHERITED;
    var raw, annotation := Get(o, ANNOTATION), path + [Name(ANNOTATION)];
    if IsPlain(h, raw) {
      if problem in BlockFaults(h, Ref(root), h[raw.id], annotation, field, BLOCKS, |BLOCKS|) {
        var i := ReportedAt(h, root, h[raw.id], annotation, field, BLOCKS, |BLOCKS|, problem);
      }
      if i: nat :| BlockAt(h, root, h[raw.id], annotation, field, BLOCKS, i, problem) {
        BlockReported(h, root, h[raw.id], annotation, field, BLOCKS, |BLOCKS|, i, problem);
      }
    }
  }

  lemma BlockIndex(b: string) returns (i: nat)
    requires b in FED
    ensures i < |BLOCKS| && BLOCKS[i] == b
  {
    BlocksExactly(b);
    i :| 0 <= i < |BLOCKS| && BLOCKS[i] == b;
  }

  lemma BlocksDiffer(i: nat, j: nat)
    requires i < j < |BLOCKS|
    ensures BLOCKS[i] != BLOCKS[j]
  {
    assert BLOCKS[0][0] == 'v' && BLOCKS[1][0] == 's' && BLOCKS[2][0] == 'p' && BLOCKS[3][0] == 'n';
    assert BLOCKS[i][0] != BLOCKS[j][0];
  }

  lemma HonouredNext(h: Heap, root: Id, raw: Obj, field: string, n: nat)
    requires raw.Record? && n < |BLOCKS|
    requires forall b :: b in FED ==> PointsWell(h, root, raw, b, field)
    requires forall b, c :: b in FED && c in FED && b != c && Get(raw, b) != Undefined ==> Get(raw, b) != Get(raw, c)
    ensures Points(h, Ref(root), raw, BLOCKS[n], field) && OfItsOwn(raw, BLOCKS, n)
  {
    BlocksExactly(BLOCKS[n]);
    PointsExactly(h, root, raw, BLOCKS[n], field);
    forall i | 0 <= i < n ensures Apart(raw, BLOCKS[i], BLOCKS[n]) {
      BlocksExactly(BLOCKS[i]);
      BlocksDiffer(i, n);
    }
  }

  lemma HonouredFrom(h: Heap, root: Id, raw: Obj, field: string, n: nat)
    requires raw.Record? && n <= |BLOCKS|
    requires forall b :: b in FED ==> PointsWell(h, root, raw, b, field)
    requires forall b, c :: b in FED && c in FED && b != c && Get(raw, b) != Undefined ==> Get(raw, b) != Get(raw, c)
    ensures BlocksHonoured(h, Ref(root), raw, field, BLOCKS, n)
  {
    for i := 0 to n
      invariant BlocksHonoured(h, Ref(root), raw, field, BLOCKS, i)
    {
      HonouredNext(h, root, raw, field, i);
    }
  }

  lemma HonouredTo(h: Heap, root: Id, raw: Obj, field: string, b: string, c: string)
    requires raw.Record? && BlocksHonoured(h, Ref(root), raw, field, BLOCKS, |BLOCKS|) && b in FED && c in FED
    ensures PointsWell(h, root, raw, b, field)
    ensures b != c && Get(raw, b) != Undefined ==> Get(raw, b) != Get(raw, c)
  {
    var i := BlockIndex(b);
    var j := BlockIndex(c);
    HonouredAt(h, Ref(root), raw, field, BLOCKS, |BLOCKS|, i);
    HonouredAt(h, Ref(root), raw, field, BLOCKS, |BLOCKS|, j);
    PointsExactly(h, root, raw, b, field);
    if i < j {
      assert Apart(raw, BLOCKS[i], BLOCKS[j]);
    } else if j < i {
      assert Apart(raw, BLOCKS[j], BLOCKS[i]);
    }
  }

  lemma HonouredExactly(h: Heap, root: Id, o: Obj, field: string)
    requires o.Record?
    ensures Honoured(h, Ref(root), o, field) <==> Faultless(h, root, o, field)
  {
    assert "x-telo-eval" !in INHERITED;
    var raw := Get(o, ANNOTATION);
    if IsPlain(h, raw) {
      KnownExactly(h[raw.id].entries);
      if BlocksHonoured(h, Ref(root), h[raw.id], field, BLOCKS, |BLOCKS|) {
        forall b, c | b in FED && c in FED
          ensures PointsWell(h, root, h[raw.id], b, field)
          ensures b != c && Get(h[raw.id], b) != Undefined ==> Get(h[raw.id], b) != Get(h[raw.id], c)
        {
          HonouredTo(h, root, h[raw.id], field, b, c);
        }
      }
      if Faultless(h, root, o, field) {
        HonouredFrom(h, root, h[raw.id], field, |BLOCKS|);
      }
    }
  }

  lemma KnownExactly(entries: seq<(string, Val)>)
    ensures (forall i :: 0 <= i < |entries| ==> entries[i].0 in FED) <==>
            (forall i :: 0 <= i < |entries| ==> entries[i].0 in BLOCKS)
  {
    forall i | 0 <= i < |entries| ensures entries[i].0 in FED <==> entries[i].0 in BLOCKS {
      BlocksExactly(entries[i].0);
    }
  }

  // --- What is accepted -----------------------------------------------------------------------------------

  /** The one annotated schema within the root: met first as a top-level property, and faultless. */
  ghost predicate TheSource(h: Heap, root: Id, id: Id, field: string) {
    && WithinRoot(h, root, id) && IsAnnotated(h, id) && MetFirst(h, root, field, id)
    && (forall other :: WithinRoot(h, root, other) && IsAnnotated(h, other) ==> other == id)
    && Faultless(h, root, h[id], field)
  }

  lemma SourceExactly(h: Heap, root: Id, id: Id, field: string)
    ensures TheSource(h, root, id, field) <==> WellAnnotated(h, root, id, field)
  {
    forall other ensures WithinRoot(h, root, other) <==> Reachable(h, root, other) {
      ReachedExactly(h, root, other);
    }
    forall other ensures IsAnnotated(h, other) <==> Writes(h, other) {
      AnnotatedExactly(h, other);
    }
    MetFirstExactly(h, root, field, id);
    if Writes(h, id) {
      HonouredExactly(h, root, h[id], field);
    }
  }

  /** No problem is found exactly when nothing within the root is annotated, or there is the one source. */
  lemma AcceptedExactly(h: Heap, root: Id, at: Path, visits: seq<Visit>)
    requires Finished(h, root, at, visits)
    ensures Judged(h, root, visits).problems == [] <==>
            (forall id :: WithinRoot(h, root, id) ==> !IsAnnotated(h, id))
            || exists id, field :: TheSource(h, root, id, field)
  {
    StrictExactly(h, root, at, visits);
    forall id ensures WithinRoot(h, root, id) <==> Reachable(h, root, id) {
      ReachedExactly(h, root, id);
    }
    forall id ensures IsAnnotated(h, id) <==> Writes(h, id) {
      AnnotatedExactly(h, id);
    }
    forall id, field ensures TheSource(h, root, id, field) <==> WellAnnotated(h, root, id, field) {
      SourceExactly(h, root, id, field);
    }
  }
}
