/**
 * `x-telo-application-source`, the readers' side: the slot a kind's schema annotates, the
 * field a kind holds a child application's source in, and every literal source written
 * in a set of manifests.
 */
module ApplicationSource {
  import opened JsonPointer
  import opened ObjectGraph
  import opened Prelude

  const ANNOTATION := "x-telo-application-source"

  const BLOCKS: seq<string> := ["variables", "secrets", "ports", "needs"]

  datatype Slot = Slot(field: string, feeds: map<string, seq<string>>)

  function SegmentsOf(v: Val): Option<seq<string>> {
    if v.Text? then PointerSegments(v.text) else None
  }

  // --- The slot ---------------------------------------------------------------------------------

  /** The blocks a well-formed annotation feeds; a malformed part is read as absent. */
  ghost predicate FeedsOf(feeds: map<string, seq<string>>, o: Obj, count: nat)
    requires o.Record? && count <= |BLOCKS|
  {
    forall b :: (b in feeds <==> b in BLOCKS[..count] && SegmentsOf(Get(o, b)).Some?)
      && (b in feeds ==> SegmentsOf(Get(o, b)) == Some(feeds[b]))
  }

  method ReadFeeds(h: Heap, raw: Val) returns (r: Option<map<string, seq<string>>>)
    ensures r.Some? <==> IsPlain(h, raw)
    ensures r.Some? ==> FeedsOf(r.value, h[raw.id], |BLOCKS|)
  {
    if !IsPlain(h, raw) {
      return None;
    }
    var feeds := map[];
    for i := 0 to |BLOCKS|
      invariant FeedsOf(feeds, h[raw.id], i)
    {
      var block := BLOCKS[i];
      var segments := SegmentsOf(Get(h[raw.id], block));
      if segments.Some? {
        feeds := feeds[block := segments.value];
      }
    }
    r := Some(feeds);
  }

  /** A property whose annotation can be read. */
  predicate Annotated(h: Heap, property: Val) {
    IsPlain(h, property) && Has(h[property.id], ANNOTATION) && IsPlain(h, Get(h[property.id], ANNOTATION))
  }

  predicate HasProperties(h: Heap, schema: Val) {
    IsPlain(h, schema) && IsPlain(h, Get(h[schema.id], "properties"))
  }

  function PropertiesOf(h: Heap, schema: Val): seq<(string, Val)>
    requires HasProperties(h, schema)
  {
    h[Get(h[schema.id], "properties").id].entries
  }

  /** The first top-level property with a readable annotation. */
  ghost predicate FirstAnnotated(h: Heap, schema: Val, i: nat)
    requires HasProperties(h, schema)
  {
    var properties := PropertiesOf(h, schema);
    i < |properties| && Annotated(h, properties[i].1) && forall j :: 0 <= j < i ==> !Annotated(h, properties[j].1)
  }

  /** A slot read off the first top-level property with a readable annotation. */
  ghost predicate ReadFrom(h: Heap, schema: Val, i: nat, slot: Slot)
    requires HasProperties(h, schema)
  {
    var properties := PropertiesOf(h, schema);
    && FirstAnnotated(h, schema, i) && properties[i].0 == slot.field
    && FeedsOf(slot.feeds, h[Get(h[properties[i].1.id], ANNOTATION).id], |BLOCKS|)
  }

  function FirstFrom(h: Heap, properties: seq<(string, Val)>, i: nat): (r: Option<nat>)
    requires i <= |properties|
    ensures r.Some? ==> i <= r.value < |properties| && Annotated(h, properties[r.value].1)
    ensures r.Some? ==> forall j :: i <= j < r.value ==> !Annotated(h, properties[j].1)
    ensures r.None? ==> forall j :: i <= j < |properties| ==> !Annotated(h, properties[j].1)
    decreases |properties| - i
  {
    if i == |properties| then None
    else if Annotated(h, properties[i].1) then Some(i)
    else FirstFrom(h, properties, i + 1)
  }

  /** The field a schema annotates, if it annotates one. */
  function SlotField(h: Heap, schema: Val): Option<string> {
    if !HasProperties(h, schema) then None
    else
      match FirstFrom(h, PropertiesOf(h, schema), 0)
      case None => None
      case Some(i) => Some(PropertiesOf(h, schema)[i].0)
  }

  lemma AnnotatedExactly(h: Heap, property: Val)
    ensures Annotated(h, property) <==>
            IsPlain(h, property) && IsPlain(h, Get(h[property.id], "x-telo-application-source"))
  {
  }

  /** Top-level property `i`, of the name `field`, is the first with a plain object as its annotation. */
  ghost predicate SlotAt(h: Heap, schema: Val, properties: seq<(string, Val)>, i: nat, field: string) {
    && IsPlain(h, schema) && IsPlain(h, Get(h[schema.id], "properties"))
    && properties == h[Get(h[schema.id], "properties").id].entries && i < |properties| && properties[i].0 == field
    && IsPlain(h, properties[i].1) && IsPlain(h, Get(h[properties[i].1.id], "x-telo-application-source"))
    && forall j :: 0 <= j < i && IsPlain(h, properties[j].1) ==>
         !IsPlain(h, Get(h[properties[j].1.id], "x-telo-application-source"))
  }

  lemma SlotFieldExactly(h: Heap, schema: Val, field: string)
    ensures SlotField(h, schema) == Some(field) <==>
            exists properties, i: nat :: SlotAt(h, schema, properties, i, field)
  {
    if HasProperties(h, schema) {
      var properties, first := PropertiesOf(h, schema), FirstFrom(h, PropertiesOf(h, schema), 0);
      forall j | 0 <= j < |properties|
        ensures Annotated(h, properties[j].1) <==>
                IsPlain(h, properties[j].1) && IsPlain(h, Get(h[properties[j].1.id], "x-telo-application-source"))
      {
        AnnotatedExactly(h, properties[j].1);
      }
      if SlotField(h, schema) == Some(field) {
        assert SlotAt(h, schema, properties, first.value, field);
      }
    }
  }

  method ReadApplicationSourceSlot(h: Heap, schema: Val) returns (r: Option<Slot>)
    ensures r.None? <==> SlotField(h, schema).None?
    ensures r.Some? ==> SlotField(h, schema) == Some(r.value.field)
    ensures r.Some? ==> HasProperties(h, schema) && exists i: nat :: ReadFrom(h, schema, i, r.value)
  {
    if !HasProperties(h, schema) {
      return None;
    }
    var properties := PropertiesOf(h, schema);
    for i := 0 to |properties|
      invariant forall j :: 0 <= j < i ==> !Annotated(h, properties[j].1)
    {
      var property := properties[i].1;
      if IsPlain(h, property) && Has(h[property.id], ANNOTATION) {
        var feeds := ReadFeeds(h, Get(h[property.id], ANNOTATION));
        if feeds.Some? {
          r := Some(Slot(properties[i].0, feeds.value));
          assert ReadFrom(h, schema, i, r.value);
          return;
        }
      }
    }
    r := None;
  }

  // --- The field of a kind ------------------------------------------------------------------------

  /** A kind document: the module it is in, and the definition it declares, if it declares one. */
  datatype KindDoc = KindDoc(mod: nat, definition: Option<Definition>)

  datatype Definition = Definition(schema: Val, parent: Option<string>, based: bool)

  /** The kind documents, and the one a written kind names in a module. */
  datatype Scope = Scope(docs: map<Id, KindDoc>, find: (nat, string) -> Option<Id>) {

    ghost predicate Valid() {
      forall mod, kind {:trigger find(mod, kind)} :: find(mod, kind).Some? ==> find(mod, kind).value in docs
    }

    /** The field a document annotates itself. */
    function FieldOf(h: Heap, doc: Id): Option<string>
      requires doc in docs
    {
      if docs[doc].definition.None? then None else SlotField(h, docs[doc].definition.value.schema)
    }

    /** The parent whose annotation a document inherits. */
    function Parent(h: Heap, doc: Id): Option<Id>
      requires doc in docs
    {
      match docs[doc].definition
      case None => None
      case Some(d) =>
        if FieldOf(h, doc).Some? || d.parent.None? || d.based then None else find(docs[doc].mod, d.parent.value)
    }

    /** A document that annotates nothing itself and extends, without a `base`, the kind its module knows by `kind`. */
    ghost predicate Extends(h: Heap, doc: Id, schema: Val, kind: string, above: Id)
      requires doc in docs
    {
      && docs[doc].definition == Some(Definition(schema, Some(kind), false))
      && SlotField(h, schema).None? && find(docs[doc].mod, kind) == Some(above)
    }

    lemma ParentExactly(h: Heap, doc: Id, above: Id)
      requires doc in docs
      ensures Parent(h, doc) == Some(above) <==> exists schema, kind :: Extends(h, doc, schema, kind, above)
    {
      if Parent(h, doc) == Some(above) {
        var d := docs[doc].definition.value;
        assert Extends(h, doc, d.schema, d.parent.value, above);
      }
    }

    /** The document `n` steps up. */
    ghost function Up(h: Heap, doc: Id, n: nat): (r: Option<Id>)
      requires Valid() && doc in docs
      ensures r.Some? ==> r.value in docs
      decreases n
    {
      if n == 0 then Some(doc)
      else if Parent(h, doc).None? then None
      else
        ParentKnown(h, doc);
        Up(h, Parent(h, doc).value, n - 1)
    }

    /** `field` is annotated by the document or inherited from above. */
    ghost predicate Inherits(h: Heap, doc: Id, field: string)
      requires Valid() && doc in docs
    {
      exists n: nat :: Up(h, doc, n).Some? && FieldOf(h, Up(h, doc, n).value) == Some(field)
    }

    /** A set of documents none of which is annotated and each of whose parents is in it. */
    ghost predicate Barren(h: Heap, ids: set<Id>) {
      forall d :: d in ids ==> d in docs && FieldOf(h, d).None? && (Parent(h, d).Some? ==> Parent(h, d).value in ids)
    }

    lemma {:induction false} BarrenAbove(h: Heap, ids: set<Id>, doc: Id, n: nat)
      requires Valid() && Barren(h, ids) && doc in ids && doc in docs
      ensures Up(h, doc, n).Some? ==> FieldOf(h, Up(h, doc, n).value).None?
      decreases n
    {
      assert Parent(h, doc).Some? ==> Parent(h, doc).value in ids;
      if n > 0 && Up(h, doc, n).Some? {
        BarrenAbove(h, ids, Parent(h, doc).value, n - 1);
      }
    }

    lemma ParentKnown(h: Heap, doc: Id)
      requires Valid() && doc in docs && Parent(h, doc).Some?
      ensures Parent(h, doc).value in docs
    {
      assert find(docs[doc].mod, docs[doc].definition.value.parent.value).Some?;
    }

    /** What a document inherits is its own or its parent's. */
    lemma InheritsStep(h: Heap, doc: Id, field: string)
      requires Valid() && doc in docs && FieldOf(h, doc).None?
      requires Parent(h, doc).Some? ==> Parent(h, doc).value in docs
      ensures Inherits(h, doc, field) <==> Parent(h, doc).Some? && Inherits(h, Parent(h, doc).value, field)
    {
      if n: nat :| Up(h, doc, n).Some? && FieldOf(h, Up(h, doc, n).value) == Some(field) {
        assert n > 0;
        assert Up(h, Parent(h, doc).value, n - 1) == Up(h, doc, n);
      }
      if Parent(h, doc).Some? && Inherits(h, Parent(h, doc).value, field) {
        var n: nat :| Up(h, Parent(h, doc).value, n).Some?
            && FieldOf(h, Up(h, Parent(h, doc).value, n).value) == Some(field);
        assert Up(h, doc, n + 1) == Up(h, Parent(h, doc).value, n);
      }
    }

    /** A document that annotates nothing inherits what its parent does. */
    lemma InheritsOnly(h: Heap, doc: Id)
      requires Valid() && doc in docs && FieldOf(h, doc).None?
      ensures Parent(h, doc).Some? ==> Parent(h, doc).value in docs
      ensures forall field :: Inherits(h, doc, field) <==>
          Parent(h, doc).Some? && Inherits(h, Parent(h, doc).value, field)
    {
      if Parent(h, doc).Some? {
        ParentKnown(h, doc);
      }
      forall field
        ensures Inherits(h, doc, field) <==> Parent(h, doc).Some? && Inherits(h, Parent(h, doc).value, field)
      {
        InheritsStep(h, doc, field);
      }
    }
  }

  /** The documents met so far: none annotated, each one's parent met too or the one met next. */
  ghost predicate Met(h: Heap, scope: Scope, seen: set<Id>, next: Option<Id>) {
    forall d :: d in seen ==>
      d in scope.docs && scope.FieldOf(h, d).None?
      && (scope.Parent(h, d).Some? ==> scope.Parent(h, d).value in seen || Some(scope.Parent(h, d).value) == next)
  }

  /** The field a kind's resources hold a child application's source in: the nearest annotation upward. */
  method ApplicationSourceFieldOf(h: Heap, scope: Scope, mod: nat, kind: string, seen: set<Id>)
          returns (r: Option<string>)
    requires scope.Valid() && Met(h, scope, seen, scope.find(mod, kind))
    ensures r.Some? <==> scope.find(mod, kind).Some? && exists field ::
        scope.Inherits(h, scope.find(mod, kind).value, field)
    ensures r.Some? ==> scope.Inherits(h, scope.find(mod, kind).value, r.value)
    decreases scope.docs.Keys - seen
  {
    var found := scope.find(mod, kind);
    if found.None? {
      return None;
    }
    var doc := found.value;
    if doc in seen {
      assert scope.Barren(h, seen);
      forall field ensures !scope.Inherits(h, doc, field) {
        if n: nat :| scope.Up(h, doc, n).Some? && scope.FieldOf(h, scope.Up(h, doc, n).value) == Some(field) {
          scope.BarrenAbove(h, seen, doc, n);
        }
      }
      return None;
    }
    var slot := scope.FieldOf(h, doc);
    if slot.Some? {
      assert scope.Up(h, doc, 0) == Some(doc);
      assert scope.Inherits(h, doc, slot.value);
      return slot;
    }
    scope.InheritsOnly(h, doc);
    var definition := scope.docs[doc].definition;
    if definition.None? || definition.value.parent.None? || definition.value.based {
      return None;
    }
    assert scope.Parent(h, doc) == scope.find(scope.docs[doc].mod, definition.value.parent.value);
    r := ApplicationSourceFieldOf(h, scope, scope.docs[doc].mod, definition.value.parent.value, seen + {doc});
  }
}
