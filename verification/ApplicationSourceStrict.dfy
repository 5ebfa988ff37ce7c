/**
 * `applicationSourceAnnotationProblems`: every annotation a kind's schema writes is judged
 * where the schema first reaches it. An annotation without a problem is the only one,
 * and the one the readers read.
 */
module ApplicationSourceStrict {
  import opened ApplicationSource
  import opened ApplicationSourceAnnotation
  import opened JsonPointer
  import opened ObjectGraph
  import opened PathText
  import opened Prelude

  const SCHEMA_MAPS: seq<string> := ["properties", "patternProperties", "$defs", "definitions"]

  const SCHEMA_VALUES: seq<string> :=
    ["additionalProperties", "items", "contains", "propertyNames", "not", "if", "then", "else"]

  const SCHEMA_LISTS: seq<string> := ["oneOf", "anyOf", "allOf", "items"]

  // --- The schemas within a schema -------------------------------------------------------------

  /** A value where a schema may hold one, and the top-level property it is, if it is one. */
  datatype Sub = Sub(child: Val, steps: Path, topLevel: Option<string>)

  function MapSubs(entries: seq<(string, Val)>, key: string, topLevel: bool): (r: seq<Sub>)
    ensures |r| == |entries|
    ensures forall i :: 0 <= i < |r| ==>
              r[i] == Sub(entries[i].1, [Name(key), Name(entries[i].0)], if topLevel then Some(entries[i].0) else None)
  {
    seq(|entries|, i requires 0 <= i < |entries| =>
      Sub(entries[i].1, [Name(key), Name(entries[i].0)], if topLevel then Some(entries[i].0) else None))
  }

  function ListSubs(items: seq<Val>, key: string): (r: seq<Sub>)
    ensures |r| == |items| && forall i :: 0 <= i < |r| ==> r[i] == Sub(items[i], [Name(key), Index(i)], None)
  {
    seq(|items|, i requires 0 <= i < |items| => Sub(items[i], [Name(key), Index(i)], None))
  }

  function SubsInMap(h: Heap, id: Id, key: string, root: Id): seq<Sub>
    requires id in h && h[id].Record?
  {
    var held := Get(h[id], key);
    if IsPlain(h, held) then MapSubs(h[held.id].entries, key, id == root && key == "properties") else []
  }

  function SubsInList(h: Heap, id: Id, key: string): seq<Sub>
    requires id in h && h[id].Record?
  {
    var held := Get(h[id], key);
    if held.Ref? && held.id in h && h[held.id].List? then ListSubs(h[held.id].items, key) else []
  }

  function MapsFrom(h: Heap, id: Id, root: Id, n: nat): seq<Sub>
    requires id in h && h[id].Record? && n <= |SCHEMA_MAPS|
    decreases |SCHEMA_MAPS| - n
  {
    if n == |SCHEMA_MAPS| then [] else SubsInMap(h, id, SCHEMA_MAPS[n], root) + MapsFrom(h, id, root, n + 1)
  }

  function SubValues(h: Heap, id: Id): (r: seq<Sub>)
    requires id in h && h[id].Record?
    ensures forall s :: s in r ==> s.topLevel.None?
  {
    seq(|SCHEMA_VALUES|, i requires 0 <= i < |SCHEMA_VALUES| =>
      Sub(Get(h[id], SCHEMA_VALUES[i]), [Name(SCHEMA_VALUES[i])], None))
  }

  function ListsFrom(h: Heap, id: Id, n: nat): (r: seq<Sub>)
    requires id in h && h[id].Record? && n <= |SCHEMA_LISTS|
    ensures forall s :: s in r ==> s.topLevel.None?
    decreases |SCHEMA_LISTS| - n
  {
    if n == |SCHEMA_LISTS| then [] else SubsInList(h, id, SCHEMA_LISTS[n]) + ListsFrom(h, id, n + 1)
  }

  /** The schemas within a schema, in the order they are visited. */
  function Subschemas(h: Heap, id: Id, root: Id): seq<Sub>
    requires id in h && h[id].Record?
  {
    MapsFrom(h, id, root, 0) + SubValues(h, id) + ListsFrom(h, id, 0)
  }

  lemma {:induction false} MapsPlain(h: Heap, id: Id, root: Id, n: nat)
    requires id in h && h[id].Record? && 0 < n <= |SCHEMA_MAPS|
    ensures forall s :: s in MapsFrom(h, id, root, n) ==> s.topLevel.None?
    decreases |SCHEMA_MAPS| - n
  {
    if n < |SCHEMA_MAPS| {
      assert SCHEMA_MAPS[n] != "properties";
      MapsPlain(h, id, root, n + 1);
    }
  }

  lemma NotLater(first: seq<Sub>, rest: seq<Sub>, i: nat)
    requires i < |first| + |rest| && (first + rest)[i] !in rest
    ensures i < |first| && forall j :: 0 <= j <= i ==> (first + rest)[j] == first[j]
  {
  }

  /** The top-level properties come first, in their order. */
  lemma TopLevelFirst(h: Heap, id: Id, root: Id, i: nat)
    requires id in h && h[id].Record? && h[id].plain && i < |Subschemas(h, id, root)|
    requires Subschemas(h, id, root)[i].topLevel.Some?
    ensures id == root && HasProperties(h, Ref(root)) && i < |PropertiesOf(h, Ref(root))|
    ensures forall j :: 0 <= j <= i ==>
              Subschemas(h, id, root)[j] == Sub(PropertiesOf(h, Ref(root))[j].1,
                [Name("properties"), Name(PropertiesOf(h, Ref(root))[j].0)], Some(PropertiesOf(h, Ref(root))[j].0))
  {
    var first, rest := SubsInMap(h, id, SCHEMA_MAPS[0], root),
        MapsFrom(h, id, root, 1) + SubValues(h, id) + ListsFrom(h, id, 0);
    MapsPlain(h, id, root, 1);
    Regroup4(first, MapsFrom(h, id, root, 1), SubValues(h, id), ListsFrom(h, id, 0));
    Regroup3(MapsFrom(h, id, root, 1), SubValues(h, id), ListsFrom(h, id, 0));
    assert Subschemas(h, id, root) == first + rest;
    NotLater(first, rest, i);
  }

  lemma TopLevelAll(h: Heap, root: Id, i: nat)
    requires HasProperties(h, Ref(root)) && i < |PropertiesOf(h, Ref(root))|
    ensures i < |Subschemas(h, root, root)|
    ensures Subschemas(h, root, root)[i] == Sub(PropertiesOf(h, Ref(root))[i].1,
              [Name("properties"), Name(PropertiesOf(h, Ref(root))[i].0)], Some(PropertiesOf(h, Ref(root))[i].0))
  {
    assert MapsFrom(h, root, root, 0)[i] == SubsInMap(h, root, SCHEMA_MAPS[0], root)[i];
  }

  // --- The way to a schema -----------------------------------------------------------------------

  datatype Step = Step(from: Id, sub: Sub)

  /** Steps from the root, each into a schema within the one before. */
  ghost predicate Leads(h: Heap, root: Id, steps: seq<Step>, id: Id) {
    && IsPlain(h, Ref(id))
    && if |steps| == 0 then id == root
       else
         var last := steps[|steps| - 1];
         && IsPlain(h, Ref(last.from)) && last.sub in Subschemas(h, last.from, root) && last.sub.child == Ref(id)
         && Leads(h, root, steps[..|steps| - 1], last.from)
  }

  ghost function PathOf(steps: seq<Step>): Path {
    if |steps| == 0 then [] else PathOf(steps[..|steps| - 1]) + steps[|steps| - 1].sub.steps
  }

  ghost predicate Reachable(h: Heap, root: Id, id: Id) {
    exists steps :: Leads(h, root, steps, id)
  }

  lemma LeadsOn(h: Heap, root: Id, steps: seq<Step>, id: Id, s: Sub)
    requires Leads(h, root, steps, id) && s in Subschemas(h, id, root) && IsPlain(h, s.child)
    ensures Leads(h, root, steps + [Step(id, s)], s.child.id)
    ensures PathOf(steps + [Step(id, s)]) == PathOf(steps) + s.steps
  {
    var longer := steps + [Step(id, s)];
    assert longer[..|longer| - 1] == steps;
  }

  // --- The walk's log ----------------------------------------------------------------------------

  /** One schema entered: where, and as which top-level property. */
  datatype Visit = Visit(id: Id, path: Path, field: Option<string>)

  /** `name` is the first top-level property that is the schema `id`. */
  ghost predicate FirstHolder(h: Heap, root: Id, name: string, id: Id) {
    HasProperties(h, Ref(root)) && exists i :: HolderAt(PropertiesOf(h, Ref(root)), i, name, id)
  }

  ghost predicate HolderAt(properties: seq<(string, Val)>, i: int, name: string, id: Id) {
    0 <= i < |properties| && properties[i] == (name, Ref(id)) && forall j :: 0 <= j < i ==> properties[j].1 != Ref(id)
  }

  /** A way to a schema that leaves the root once, by the root's schema `j`. */
  ghost predicate Through(h: Heap, root: Id, j: nat, steps: seq<Step>, id: Id) {
    && IsPlain(h, Ref(root)) && j < |Subschemas(h, root, root)|
    && Leads(h, root, steps, id) && |steps| > 0 && steps[0] == Step(root, Subschemas(h, root, root)[j])
    && forall k :: 0 < k < |steps| ==> steps[k].from != root
  }

  /**
   * `name` is the first top-level property that is the schema `id`, and no top-level property
   * before it leads there.
   */
  ghost predicate Foremost(h: Heap, root: Id, name: string, id: Id) {
    id != root && HasProperties(h, Ref(root)) && exists i :: ForemostAt(h, root, i, name, id)
  }

  ghost predicate ForemostAt(h: Heap, root: Id, i: int, name: string, id: Id)
    requires HasProperties(h, Ref(root))
  {
    && HolderAt(PropertiesOf(h, Ref(root)), i, name, id)
    && forall j: nat, steps :: j < i ==> !Through(h, root, j, steps, id)
  }

  /** There is a way to the schema that no top-level property that is the schema comes before. */
  ghost predicate Late(h: Heap, root: Id, id: Id) {
    id == root || exists j: nat, steps :: Through(h, root, j, steps, id) && NoneUpTo(h, root, j, id)
  }

  ghost predicate NoneUpTo(h: Heap, root: Id, j: nat, id: Id)
    requires IsPlain(h, Ref(root)) && j < |Subschemas(h, root, root)|
  {
    forall m :: 0 <= m <= j && Subschemas(h, root, root)[m].topLevel.Some? ==>
        Subschemas(h, root, root)[m].child != Ref(id)
  }

  lemma LateNotForemost(h: Heap, root: Id, name: string, id: Id)
    requires Late(h, root, id)
    ensures !Foremost(h, root, name, id)
  {
    if Foremost(h, root, name, id) {
      var j: nat, steps :| Through(h, root, j, steps, id) && NoneUpTo(h, root, j, id);
      var i :| ForemostAt(h, root, i, name, id);
      TopLevelAll(h, root, i);
    }
  }

  lemma ForemostHolds(h: Heap, root: Id, name: string, id: Id)
    requires Foremost(h, root, name, id)
    ensures FirstHolder(h, root, name, id)
  {
    var i :| ForemostAt(h, root, i, name, id);
    assert HolderAt(PropertiesOf(h, Ref(root)), i, name, id);
  }

  /** A visit is made at a path that leads to the schema, and its field is the last step's. */
  ghost predicate Arrived(h: Heap, root: Id, at: Path, v: Visit, steps: seq<Step>) {
    && Leads(h, root, steps, v.id) && v.path == at + PathOf(steps)
    && v.field == if |steps| == 0 then None else steps[|steps| - 1].sub.topLevel
  }

  ghost predicate Met(h: Heap, root: Id, at: Path, v: Visit) {
    exists steps :: Arrived(h, root, at, v, steps)
  }

  ghost predicate Genuine(h: Heap, root: Id, at: Path, v: Visit) {
    && Met(h, root, at, v)
    && if v.field.Some? then Foremost(h, root, v.field.value, v.id) else Late(h, root, v.id)
  }

  /** A schema is entered by a way through one of the root's schemas, all those up to it being entered. */
  ghost predicate Placed(h: Heap, root: Id, id: Id, ids: set<Id>) {
    || id == root
    || exists j: nat, steps ::
         Through(h, root, j, steps, id) && EnteredUpTo(Subschemas(h, root, root), j + 1, h, ids)
  }

  lemma PlacedOn(h: Heap, root: Id, id: Id, before: set<Id>, after: set<Id>)
    requires Placed(h, root, id, before) && before <= after
    ensures Placed(h, root, id, after)
  {
    if id != root {
      var j: nat, steps :| Through(h, root, j, steps, id) && EnteredUpTo(Subschemas(h, root, root), j + 1, h, before);
      UpToMore(Subschemas(h, root, root), j + 1, h, before, after);
    }
  }

  ghost function Ids(visits: seq<Visit>): set<Id> {
    set v | v in visits :: v.id
  }

  ghost predicate Once(visits: seq<Visit>) {
    forall i, j :: 0 <= i < j < |visits| ==> visits[i].id != visits[j].id
  }

  ghost predicate Log(h: Heap, root: Id, at: Path, visits: seq<Visit>) {
    && Once(visits) && (|visits| > 0 ==> visits[0].id == root)
    && forall v :: v in visits ==> Genuine(h, root, at, v) && Placed(h, root, v.id, Ids(visits))
  }

  /** A schema may be visited next. */
  ghost predicate Ready(h: Heap, root: Id, at: Path, ids: set<Id>, v: Visit) {
    Genuine(h, root, at, v) && Placed(h, root, v.id, ids + {v.id})
  }

  /** Every schema within `id` is among `ids`. */
  ghost predicate Entered(h: Heap, root: Id, id: Id, ids: set<Id>) {
    IsPlain(h, Ref(id)) && forall s :: s in Subschemas(h, id, root) && IsPlain(h, s.child) ==> s.child.id in ids
  }

  /** What one walk adds to the log: visits whose schemas are entered in full. */
  ghost predicate Grown(h: Heap, root: Id, before: seq<Visit>, after: seq<Visit>) {
    before <= after && forall id :: id in Ids(after) - Ids(before) ==> Entered(h, root, id, Ids(after))
  }

  // --- The judgement -----------------------------------------------------------------------------

  /** The problems so far, and the field the annotation met first is on. */
  datatype Verdict = Verdict(problems: seq<Problem>, annotated: Option<string>)

  predicate Writes(h: Heap, id: Id) {
    id in h && h[id].Record? && Has(h[id], ANNOTATION)
  }

  function JudgeOne(h: Heap, root: Id, verdict: Verdict, v: Visit): Verdict {
    if !Writes(h, v.id) then verdict
    else
      var at := v.path + [Name(ANNOTATION)];
      match v.field
      case None => verdict.(problems := verdict.problems + [Problem(at, Misplaced)])
      case Some(field) =>
        if verdict.annotated.Some? then
          verdict.(problems := verdict.problems + [Problem(at, Repeated(verdict.annotated.value))])
        else Verdict(verdict.problems + AnnotationFaults(h, Ref(root), h[v.id], v.path, field), Some(field))
  }

  /** The verdict over the visits, one after the other. */
  function Judged(h: Heap, root: Id, visits: seq<Visit>): Verdict {
    if |visits| == 0 then Verdict([], None)
    else JudgeOne(h, root, Judged(h, root, visits[..|visits| - 1]), visits[|visits| - 1])
  }

  lemma JudgedNext(h: Heap, root: Id, visits: seq<Visit>, v: Visit)
    ensures Judged(h, root, visits + [v]) == JudgeOne(h, root, Judged(h, root, visits), v)
  {
    assert (visits + [v])[..|visits|] == visits;
  }

  lemma IdsNext(visits: seq<Visit>, v: Visit)
    ensures Ids(visits + [v]) == Ids(visits) + {v.id}
  {
    var longer := visits + [v];
    assert longer[|visits|] == v;
    forall w | w in visits ensures w in longer {
      var i :| 0 <= i < |visits| && visits[i] == w;
      assert longer[i] == w;
    }
  }

  lemma OnceNext(visits: seq<Visit>, v: Visit)
    requires Once(visits) && v.id !in Ids(visits)
    ensures Once(visits + [v])
  {
    var longer := visits + [v];
    forall i, j | 0 <= i < j < |longer| ensures longer[i].id != longer[j].id {
      assert longer[i] in visits && longer[i].id in Ids(visits);
    }
  }

  lemma LogNext(h: Heap, root: Id, at: Path, visits: seq<Visit>, v: Visit)
    requires Log(h, root, at, visits) && Ready(h, root, at, Ids(visits), v) && v.id !in Ids(visits)
    requires visits == [] ==> v.id == root
    ensures Log(h, root, at, visits + [v])
  {
    OnceNext(visits, v);
    IdsNext(visits, v);
    forall w | w in visits + [v] ensures Genuine(h, root, at, w) && Placed(h, root, w.id, Ids(visits + [v])) {
      if w in visits {
        PlacedOn(h, root, w.id, Ids(visits), Ids(visits + [v]));
      } else {
        assert w == v;
      }
    }
  }

  /** The first `n` schemas within `id` are among `ids`. */
  ghost predicate EnteredUpTo(subs: seq<Sub>, n: nat, h: Heap, ids: set<Id>) {
    n <= |subs| && forall i {:trigger Inside(h, subs[i], ids)} :: 0 <= i < n ==> Inside(h, subs[i], ids)
  }

  ghost predicate Inside(h: Heap, s: Sub, ids: set<Id>) {
    IsPlain(h, s.child) ==> s.child.id in ids
  }

  lemma UpToNext(subs: seq<Sub>, i: nat, h: Heap, before: set<Id>, after: set<Id>)
    requires i < |subs| && EnteredUpTo(subs, i, h, before) && before <= after && Inside(h, subs[i], after)
    ensures EnteredUpTo(subs, i + 1, h, after)
  {
    forall j | 0 <= j < i + 1 ensures Inside(h, subs[j], after) {
      assert j < i ==> Inside(h, subs[j], before);
    }
  }

  lemma SubArrived(h: Heap, root: Id, at: Path, v: Visit, steps: seq<Step>, s: Sub)
    requires Arrived(h, root, at, v, steps) && s in Subschemas(h, v.id, root) && IsPlain(h, s.child)
    ensures Arrived(h, root, at, Visit(s.child.id, v.path + s.steps, s.topLevel), steps + [Step(v.id, s)])
  {
    LeadsOn(h, root, steps, v.id, s);
    Regroup3(at, PathOf(steps), s.steps);
  }

  /** Every schema entered but the root is entered in full. */
  ghost predicate Shut(h: Heap, root: Id, ids: set<Id>) {
    forall id :: id in ids && id != root ==> Entered(h, root, id, ids)
  }

  /** Then all that the root's entered schemas lead to, not through the root, is entered. */
  lemma {:induction false} ThroughEntered(h: Heap, root: Id, n: nat, ids: set<Id>, j: nat, steps: seq<Step>, id: Id)
    requires Through(h, root, j, steps, id) && j < n && id != root
    requires EnteredUpTo(Subschemas(h, root, root), n, h, ids) && Shut(h, root, ids)
    ensures id in ids
    decreases |steps|
  {
    var last := steps[|steps| - 1];
    if |steps| == 1 {
      assert Inside(h, Subschemas(h, root, root)[j], ids);
    } else {
      ThroughEntered(h, root, n, ids, j, steps[..|steps| - 1], last.from);
      assert Entered(h, root, last.from, ids);
    }
  }

  lemma SubMet(h: Heap, root: Id, at: Path, v: Visit, s: Sub)
    requires Met(h, root, at, v) && IsPlain(h, Ref(v.id)) && s in Subschemas(h, v.id, root) && IsPlain(h, s.child)
    ensures Met(h, root, at, Visit(s.child.id, v.path + s.steps, s.topLevel))
  {
    var steps :| Arrived(h, root, at, v, steps);
    SubArrived(h, root, at, v, steps, s);
  }

  lemma RootThrough(h: Heap, root: Id, i: nat, s: Sub)
    requires IsPlain(h, Ref(root)) && i < |Subschemas(h, root, root)| && s == Subschemas(h, root, root)[i]
        && IsPlain(h, s.child)
    ensures Through(h, root, i, [Step(root, s)], s.child.id)
  {
    assert Leads(h, root, [], root);
    LeadsOn(h, root, [], root, s);
    assert [] + [Step(root, s)] == [Step(root, s)];
  }

  lemma InnerThrough(h: Heap, root: Id, j: nat, way: seq<Step>, id: Id, s: Sub)
    requires Through(h, root, j, way, id) && id != root && s in Subschemas(h, id, root) && IsPlain(h, s.child)
    ensures Through(h, root, j, way + [Step(id, s)], s.child.id)
  {
    LeadsOn(h, root, way, id, s);
    var longer := way + [Step(id, s)];
    assert longer[0] == way[0];
    forall k | 0 < k < |longer| ensures longer[k].from != root {
      assert longer[k] == if k < |way| then way[k] else Step(id, s);
    }
  }

  lemma UpToMore(subs: seq<Sub>, n: nat, h: Heap, before: set<Id>, after: set<Id>)
    requires EnteredUpTo(subs, n, h, before) && before <= after
    ensures EnteredUpTo(subs, n, h, after)
  {
    forall i | 0 <= i < n ensures Inside(h, subs[i], after) {
      assert Inside(h, subs[i], before);
    }
  }

  /** What has not been entered is none of the schemas entered. */
  lemma NotUpTo(subs: seq<Sub>, n: nat, h: Heap, ids: set<Id>, child: Val)
    requires EnteredUpTo(subs, n, h, ids) && IsPlain(h, child) && child.id !in ids
    ensures forall m :: 0 <= m < n ==> subs[m].child != child
  {
    forall m | 0 <= m < n ensures subs[m].child != child {
      assert Inside(h, subs[m], ids);
    }
  }

  lemma RootForemost(h: Heap, root: Id, i: nat, ids: set<Id>, s: Sub)
    requires IsPlain(h, Ref(root)) && root in ids && Shut(h, root, ids)
    requires i < |Subschemas(h, root, root)| && EnteredUpTo(Subschemas(h, root, root), i, h, ids)
    requires s == Subschemas(h, root, root)[i] && IsPlain(h, s.child) && s.child.id !in ids && s.topLevel.Some?
    ensures Foremost(h, root, s.topLevel.value, s.child.id)
  {
    TopLevelFirst(h, root, root, i);
    NotUpTo(Subschemas(h, root, root), i, h, ids, s.child);
    forall j: nat, w | j < i ensures !Through(h, root, j, w, s.child.id) {
      if Through(h, root, j, w, s.child.id) {
        ThroughEntered(h, root, i, ids, j, w, s.child.id);
      }
    }
    assert ForemostAt(h, root, i, s.topLevel.value, s.child.id);
  }

  /** The next schema of the root may be visited. */
  lemma RootReady(h: Heap, root: Id, at: Path, v: Visit, i: nat, ids: set<Id>, s: Sub)
    requires Met(h, root, at, v) && v.id == root && root in ids && IsPlain(h, Ref(root)) && Shut(h, root, ids)
    requires i < |Subschemas(h, root, root)| && EnteredUpTo(Subschemas(h, root, root), i, h, ids)
    requires s == Subschemas(h, root, root)[i] && IsPlain(h, s.child) && s.child.id !in ids
    ensures Ready(h, root, at, ids, Visit(s.child.id, v.path + s.steps, s.topLevel))
  {
    SubMet(h, root, at, v, s);
    RootThrough(h, root, i, s);
    UpToNext(Subschemas(h, root, root), i, h, ids, ids + {s.child.id});
    if s.topLevel.Some? {
      RootForemost(h, root, i, ids, s);
    } else {
      NotUpTo(Subschemas(h, root, root), i, h, ids, s.child);
      assert NoneUpTo(h, root, i, s.child.id);
    }
  }

  lemma PlacedBy(h: Heap, root: Id, j: nat, way: seq<Step>, id: Id, ids: set<Id>)
    requires Through(h, root, j, way, id) && id !in ids && IsPlain(h, Ref(id))
    requires EnteredUpTo(Subschemas(h, root, root), j + 1, h, ids)
    ensures Placed(h, root, id, ids + {id}) && Late(h, root, id)
  {
    var subs := Subschemas(h, root, root);
    NotUpTo(subs, j + 1, h, ids, Ref(id));
    UpToMore(subs, j + 1, h, ids, ids + {id});
    assert NoneUpTo(h, root, j, id);
  }

  /** A schema within any other may be visited: it is too late for it to be a top-level one. */
  lemma InnerReady(h: Heap, root: Id, at: Path, v: Visit, s: Sub, ids: set<Id>)
    requires Met(h, root, at, v) && v.id != root && Placed(h, root, v.id, ids) && IsPlain(h, Ref(v.id))
    requires s in Subschemas(h, v.id, root) && IsPlain(h, s.child) && s.child.id !in ids && s.topLevel.None?
    ensures Ready(h, root, at, ids, Visit(s.child.id, v.path + s.steps, s.topLevel))
  {
    SubMet(h, root, at, v, s);
    var j: nat, way :| Through(h, root, j, way, v.id) && EnteredUpTo(Subschemas(h, root, root), j + 1, h, ids);
    InnerThrough(h, root, j, way, v.id, s);
    PlacedBy(h, root, j, way + [Step(v.id, s)], s.child.id, ids);
  }

  /** The next schema within one already entered may be visited. */
  lemma SubReady(h: Heap, root: Id, at: Path, visits: seq<Visit>, v: Visit, i: nat, ids: set<Id>)
    requires Log(h, root, at, visits) && v in visits && IsPlain(h, Ref(v.id)) && ids == Ids(visits)
    requires i < |Subschemas(h, v.id, root)| && EnteredUpTo(Subschemas(h, v.id, root), i, h, ids)
    requires v.id == root ==> Shut(h, root, ids)
    ensures var s := Subschemas(h, v.id, root)[i];
            IsPlain(h, s.child) && s.child.id !in ids ==>
                Ready(h, root, at, ids, Visit(s.child.id, v.path + s.steps, s.topLevel))
  {
    var s := Subschemas(h, v.id, root)[i];
    if v.id == root {
      if IsPlain(h, s.child) && s.child.id !in ids {
        RootReady(h, root, at, v, i, ids, s);
      }
    } else if IsPlain(h, s.child) && s.child.id !in ids {
      if s.topLevel.Some? {
        TopLevelFirst(h, v.id, root, i);
      }
      InnerReady(h, root, at, v, s, ids);
    }
  }

  lemma IdsGrow(before: seq<Visit>, after: seq<Visit>)
    requires before <= after
    ensures Ids(before) <= Ids(after)
  {
    forall v | v in before ensures v in after {
      var i :| 0 <= i < |before| && before[i] == v;
      assert after[i] == v;
    }
  }

  lemma GrownOn(h: Heap, root: Id, a: seq<Visit>, b: seq<Visit>, c: seq<Visit>)
    requires Grown(h, root, a, b) && Grown(h, root, b, c)
    ensures Grown(h, root, a, c) && Ids(b) <= Ids(c)
  {
    IdsGrow(b, c);
    forall id | id in Ids(c) - Ids(a) ensures Entered(h, root, id, Ids(c)) {
      if id in Ids(b) {
        assert Entered(h, root, id, Ids(b));
      }
    }
  }

  lemma GrownNode(h: Heap, root: Id, a: seq<Visit>, v: Visit, c: seq<Visit>)
    requires Grown(h, root, a + [v], c) && Ids(a + [v]) == Ids(a) + {v.id} && Entered(h, root, v.id, Ids(c))
    ensures Grown(h, root, a, c)
  {
    assert a <= a + [v];
  }

  /** While the root is being entered, what was entered within it is entered in full. */
  lemma RootShut(h: Heap, root: Id, v: Visit, before: seq<Visit>, visits: seq<Visit>)
    requires Grown(h, root, before, visits) && (v.id == root ==> before == [v])
    ensures v.id == root ==> Shut(h, root, Ids(visits))
  {
    if v.id == root {
      forall id | id in Ids(visits) && id != root ensures Entered(h, root, id, Ids(visits)) {
        assert id !in Ids([v]);
      }
    }
  }

  lemma NextReady(h: Heap, root: Id, at: Path, v: Visit, before: seq<Visit>, visits: seq<Visit>, i: nat, s: Sub)
    requires Log(h, root, at, visits) && v in visits && IsPlain(h, Ref(v.id))
    requires Grown(h, root, before, visits) && (v.id == root ==> before == [v])
    requires i < |Subschemas(h, v.id, root)| && s == Subschemas(h, v.id, root)[i]
    requires EnteredUpTo(Subschemas(h, v.id, root), i, h, Ids(visits))
    ensures IsPlain(h, s.child) && s.child.id !in Ids(visits) ==>
              Ready(h, root, at, Ids(visits), Visit(s.child.id, v.path + s.steps, s.topLevel))
  {
    RootShut(h, root, v, before, visits);
    SubReady(h, root, at, visits, v, i, Ids(visits));
  }

  lemma InFull(h: Heap, root: Id, id: Id, ids: set<Id>)
    requires IsPlain(h, Ref(id)) && EnteredUpTo(Subschemas(h, id, root), |Subschemas(h, id, root)|, h, ids)
    ensures Entered(h, root, id, ids)
  {
    var subs := Subschemas(h, id, root);
    forall s | s in subs && IsPlain(h, s.child) ensures s.child.id in ids {
      var i :| 0 <= i < |subs| && subs[i] == s;
      assert Inside(h, subs[i], ids);
    }
  }

  /** The set of schemas seen and the verdict are those of the visits logged. */
  ghost predicate Keeps(h: Heap, root: Id, at: Path, visits: seq<Visit>, seen: set<Id>, verdict: Verdict) {
    Log(h, root, at, visits) && seen == Ids(visits) && seen <= h.Keys && verdict == Judged(h, root, visits)
  }

  lemma KeepsNext(h: Heap, root: Id, at: Path, visits: seq<Visit>, seen: set<Id>, verdict: Verdict, v: Visit)
    requires Keeps(h, root, at, visits, seen, verdict) && IsPlain(h, Ref(v.id)) && v.id !in seen
    requires Ready(h, root, at, seen, v) && (visits == [] ==> v.id == root)
    ensures Keeps(h, root, at, visits + [v], seen + {v.id}, JudgeOne(h, root, verdict, v))
  {
    LogNext(h, root, at, visits, v);
    IdsNext(visits, v);
    JudgedNext(h, root, visits, v);
  }

  lemma LeftFewer(keys: set<Id>, before: set<Id>, after: set<Id>)
    requires before <= after
    ensures keys - after == keys - before || keys - after < keys - before
  {
  }

  lemma LeftWithout(keys: set<Id>, before: set<Id>, id: Id)
    requires id in keys && id !in before
    ensures keys - (before + {id}) < keys - before
  {
    assert id in keys - before;
  }

  class AnnotationChecker {
    const h: Heap
    const root: Id
    const at: Path
    var problems: seq<Problem>
    var annotated: Option<string>
    var seen: set<Id>
    ghost var visits: seq<Visit>

    constructor (h: Heap, root: Id, at: Path)
      ensures this.h == h && this.root == root && this.at == at
      ensures Kept() && visits == []
    {
      this.h, this.root, this.at := h, root, at;
      problems, annotated, seen, visits := [], None, {}, [];
    }

    ghost predicate Kept()
      reads this
    {
      Keeps(h, root, at, visits, seen, Verdict(problems, annotated))
    }

    /** Judges the blocks of an annotation. */
    method JudgeBlocks(o: Obj, path: Path, field: string)
      requires o.Record?
      modifies this`problems
      ensures problems == old(problems) + BlockFaults(h, Ref(root), o, path, field, BLOCKS, |BLOCKS|)
    {
      var targets := map[];
      for i := 0 to |BLOCKS|
        invariant problems == old(problems) + BlockFaults(h, Ref(root), o, path, field, BLOCKS, i)
        invariant targets == Targets(h, Ref(root), o, field, BLOCKS, i)
      {
        var block := BLOCKS[i];
        var fault := BlockFault(h, Ref(root), o, block, field, targets);
        Regroup3(old(problems), BlockFaults(h, Ref(root), o, path, field, BLOCKS, i), Reported(fault, path, block));
        problems := problems + Reported(fault, path, block);
        targets := Targeted(Get(o, block), fault, block, targets);
      }
    }

    method JudgeValue(raw: Val, path: Path, field: string)
      modifies this`problems
      ensures problems == old(problems) + ValueFaults(h, Ref(root), raw, path, field)
    {
      if !IsPlain(h, raw) {
        problems := problems + [Problem(path, NotAnObject)];
        return;
      }
      var o := h[raw.id];
      var unknown := Unknown(o.entries);
      if unknown != [] {
        problems := problems + [Problem(path, UnknownKeys(unknown))];
      }
      ghost var noted := if unknown == [] then [] else [Problem(path, UnknownKeys(unknown))];
      assert problems == old(problems) + noted;
      JudgeBlocks(o, path, field);
      Regroup3(old(problems), noted, BlockFaults(h, Ref(root), o, path, field, BLOCKS, |BLOCKS|));
    }

    /** Judges the annotation of a schema just entered. */
    method Judge(id: Id, path: Path, field: Option<string>)
      requires Writes(h, id)
      modifies this`problems, this`annotated
      ensures Verdict(problems, annotated) == JudgeOne(h, root, old(Verdict(problems, annotated)),
          Visit(id, path, field))
    {
      var o := h[id];
      if field.None? {
        problems := problems + [Problem(path + [Name(ANNOTATION)], Misplaced)];
        return;
      }
      if annotated.Some? {
        problems := problems + [Problem(path + [Name(ANNOTATION)], Repeated(annotated.value))];
        return;
      }
      annotated := field;
      if Get(o, "type") != Text("string") {
        problems := problems + [Problem(path + [Name("type")], NotAString)];
      }
      if Has(o, EVAL) {
        problems := problems + [Problem(path + [Name(EVAL)], Evaluated)];
      }
      assert problems == old(problems) + TypeFaults(o, path);
      JudgeValue(Get(o, ANNOTATION), path + [Name(ANNOTATION)], field.value);
      Regroup3(old(problems), TypeFaults(o, path),
          ValueFaults(h, Ref(root), Get(o, ANNOTATION), path + [Name(ANNOTATION)], field.value));
    }

    /** Judges the annotation of a schema just entered, if it writes one. */
    method JudgeWritten(id: Id, path: Path, field: Option<string>)
      requires IsPlain(h, Ref(id))
      modifies this`problems, this`annotated
      ensures Verdict(problems, annotated) ==
              JudgeOne(h, root, old(Verdict(problems, annotated)), Visit(id, path, field))
    {
      if Has(h[id], ANNOTATION) {
        Judge(id, path, field);
      }
    }

    /** Enters a schema that may be visited: its own annotation is judged. */
    method Enter(id: Id, path: Path, field: Option<string>)
      requires IsPlain(h, Ref(id))
      requires Keeps(h, root, at, visits + [Visit(id, path, field)], seen + {id},
                     JudgeOne(h, root, Verdict(problems, annotated), Visit(id, path, field)))
      modifies this
      ensures Kept() && visits == old(visits) + [Visit(id, path, field)] && seen == old(seen) + {id}
    {
      seen := seen + {id};
      JudgeWritten(id, path, field);
      visits := visits + [Visit(id, path, field)];
    }

    /** Visits a schema once: its own annotation first, then the schemas within it. */
    method VisitNode(node: Val, path: Path, field: Option<string>)
      requires Kept()
      requires IsPlain(h, node) && node.id !in seen ==> Ready(h, root, at, seen, Visit(node.id, path, field))
      requires visits == [] ==> node == Ref(root)
      modifies this
      ensures Kept() && Grown(h, root, old(visits), visits)
      ensures IsPlain(h, node) ==> node.id in seen
      decreases h.Keys - seen, 0
    {
      if !IsPlain(h, node) || node.id in seen {
        return;
      }
      ghost var v, before := Visit(node.id, path, field), visits;
      KeepsNext(h, root, at, visits, seen, Verdict(problems, annotated), v);
      Enter(node.id, path, field);
      LeftWithout(h.Keys, old(seen), node.id);
      VisitWithin(node.id, path, v);
      GrownNode(h, root, before, v, visits);
    }

    method VisitWithin(id: Id, path: Path, ghost v: Visit)
      requires Kept() && IsPlain(h, Ref(id))
      requires v in visits && v.id == id && v.path == path
      requires id == root ==> visits == [v]
      modifies this
      ensures Kept() && Grown(h, root, old(visits), visits)
      ensures Entered(h, root, id, seen)
      decreases h.Keys - seen, 1
    {
      var subs := Subschemas(h, id, root);
      for i := 0 to |subs|
        invariant Kept() && Grown(h, root, old(visits), visits) && v in visits
        invariant EnteredUpTo(subs, i, h, seen) && old(seen) <= seen
      {
        ghost var before := visits;
        LeftFewer(h.Keys, old(seen), seen);
        NextReady(h, root, at, v, old(visits), visits, i, subs[i]);
        VisitNode(subs[i].child, path + subs[i].steps, subs[i].topLevel);
        GrownOn(h, root, old(visits), before, visits);
        UpToNext(subs, i, h, Ids(before), seen);
      }
      InFull(h, root, id, seen);
    }
  }

  // --- The verdict over a whole schema ------------------------------------------------------------

  ghost predicate NoneWrites(h: Heap, visits: seq<Visit>) {
    forall i :: 0 <= i < |visits| ==> !Writes(h, visits[i].id)
  }

  /** The visits that meet an annotation: none, or one, as a top-level property without a fault. */
  ghost predicate Clean(h: Heap, root: Id, visits: seq<Visit>) {
    NoneWrites(h, visits) || exists k :: Sole(h, root, visits, k)
  }

  ghost predicate Sole(h: Heap, root: Id, visits: seq<Visit>, k: int) {
    && 0 <= k < |visits| && Writes(h, visits[k].id) && visits[k].field.Some?
    && Honoured(h, Ref(root), h[visits[k].id], visits[k].field.value)
    && forall i :: 0 <= i < |visits| && i != k ==> !Writes(h, visits[i].id)
  }

  lemma SoleInit(h: Heap, root: Id, visits: seq<Visit>)
    requires |visits| > 0 && Clean(h, root, visits)
    ensures Clean(h, root, visits[..|visits| - 1])
  {
    var init := visits[..|visits| - 1];
    if k :| Sole(h, root, visits, k) {
      if k < |init| {
        assert Sole(h, root, init, k);
      } else {
        assert forall i :: 0 <= i < |init| ==> init[i] == visits[i];
      }
    }
  }

  lemma CleanSilent(h: Heap, root: Id, visits: seq<Visit>)
    requires |visits| > 0 && !Writes(h, visits[|visits| - 1].id)
    ensures Clean(h, root, visits) <==> Clean(h, root, visits[..|visits| - 1])
    ensures NoneWrites(h, visits) <==> NoneWrites(h, visits[..|visits| - 1])
  {
    var init := visits[..|visits| - 1];
    assert forall i :: 0 <= i < |init| ==> init[i] == visits[i];
    if Clean(h, root, visits) {
      SoleInit(h, root, visits);
    }
    if k :| Sole(h, root, init, k) {
      assert Sole(h, root, visits, k);
    }
  }

  lemma {:induction false} JudgedExactly(h: Heap, root: Id, visits: seq<Visit>)
    ensures Judged(h, root, visits).problems == [] <==> Clean(h, root, visits)
    ensures Clean(h, root, visits) ==>
              (Judged(h, root, visits).annotated.None? <==> NoneWrites(h, visits))
  {
    if |visits| > 0 {
      var n := |visits| - 1;
      var init, last := visits[..n], visits[n];
      JudgedExactly(h, root, init);
      if !Writes(h, last.id) {
        CleanSilent(h, root, visits);
      } else if Clean(h, root, init) {
        assert forall i :: 0 <= i < n ==> init[i] == visits[i];
        JudgedLast(h, root, visits);
      } else if Clean(h, root, visits) {
        SoleInit(h, root, visits);
      }
    }
  }

  /** An annotation met last is the only one, or is a problem. */
  lemma JudgedLast(h: Heap, root: Id, visits: seq<Visit>)
    requires |visits| > 0 && Writes(h, visits[|visits| - 1].id)
    requires var before := Judged(h, root, visits[..|visits| - 1]);
             before.problems == []
             && (before.annotated.None? <==> forall i :: 0 <= i < |visits| - 1 ==> !Writes(h, visits[i].id))
    ensures Judged(h, root, visits).problems == [] <==> Clean(h, root, visits)
    ensures Clean(h, root, visits) ==> Judged(h, root, visits).annotated.Some?
  {
    var n := |visits| - 1;
    var last := visits[n];
    if last.field.Some? {
      FaultlessExactly(h, Ref(root), h[last.id], last.path, last.field.value);
    }
    if Clean(h, root, visits) {
      var k :| Sole(h, root, visits, k);
      assert k == n;
    }
    if Judged(h, root, visits).problems == [] {
      assert Sole(h, root, visits, n);
    }
  }

  /** Every schema that can be reached has been visited. */
  lemma {:induction false} AllVisited(h: Heap, root: Id, visits: seq<Visit>, steps: seq<Step>, id: Id)
    requires Grown(h, root, [], visits) && root in Ids(visits) && Leads(h, root, steps, id)
    ensures id in Ids(visits)
    decreases |steps|
  {
    if |steps| > 0 {
      var last := steps[|steps| - 1];
      AllVisited(h, root, visits, steps[..|steps| - 1], last.from);
      assert last.from in Ids(visits) - Ids([]) && Entered(h, root, last.from, Ids(visits));
    }
  }

  /** The visits of a finished walk: one for each reachable schema. */
  ghost predicate Finished(h: Heap, root: Id, at: Path, visits: seq<Visit>) {
    Log(h, root, at, visits) && forall id :: id in Ids(visits) <==> Reachable(h, root, id)
  }

  lemma Finish(h: Heap, root: Id, at: Path, visits: seq<Visit>)
    requires Log(h, root, at, visits) && Grown(h, root, [], visits) && root in Ids(visits)
    ensures Finished(h, root, at, visits)
  {
    forall id ensures id in Ids(visits) <==> Reachable(h, root, id) {
      if id in Ids(visits) {
        var v :| v in visits && v.id == id;
        var steps :| Arrived(h, root, at, v, steps);
      }
      if steps :| Leads(h, root, steps, id) {
        AllVisited(h, root, visits, steps, id);
      }
    }
  }

  method ApplicationSourceAnnotationProblems(h: Heap, schema: Val, at: Path)
    returns (problems: seq<Problem>, ghost visits: seq<Visit>)
    ensures !IsPlain(h, schema) ==> problems == []
    ensures IsPlain(h, schema) ==>
              Finished(h, schema.id, at, visits) && problems == Judged(h, schema.id, visits).problems
  {
    visits := [];
    if !IsPlain(h, schema) {
      return [], visits;
    }
    var checker := new AnnotationChecker(h, schema.id, at);
    assert Leads(h, schema.id, [], schema.id);
    assert Arrived(h, schema.id, at, Visit(schema.id, at, None), []);
    checker.VisitNode(schema, at, None);
    Finish(h, schema.id, at, checker.visits);
    problems, visits := checker.problems, checker.visits;
  }

  // --- What the strict side guarantees ---------------------------------------------------------------

  /** The one schema that is annotated. */
  ghost predicate OnlyAnnotated(h: Heap, root: Id, id: Id) {
    && Reachable(h, root, id) && Writes(h, id)
    && forall other :: Reachable(h, root, other) && Writes(h, other) ==> other == id
  }

  lemma PropertyReachable(h: Heap, root: Id, i: nat)
    requires HasProperties(h, Ref(root)) && i < |PropertiesOf(h, Ref(root))|
        && IsPlain(h, PropertiesOf(h, Ref(root))[i].1)
    ensures Reachable(h, root, PropertiesOf(h, Ref(root))[i].1.id)
  {
    TopLevelAll(h, root, i);
    assert Leads(h, root, [], root);
    LeadsOn(h, root, [], root, Subschemas(h, root, root)[i]);
  }

  /** The readers read the only annotation there is off its first holder. */
  lemma ReadersAgree(h: Heap, root: Id, id: Id, field: string)
    requires OnlyAnnotated(h, root, id) && FirstHolder(h, root, field, id) && IsPlain(h, Ref(id))
    requires IsPlain(h, Get(h[id], ANNOTATION))
    ensures SlotField(h, Ref(root)) == Some(field)
    ensures forall i: nat :: FirstAnnotated(h, Ref(root), i) ==> PropertiesOf(h, Ref(root))[i] == (field, Ref(id))
  {
    var properties := PropertiesOf(h, Ref(root));
    var k :| HolderAt(properties, k, field, id);
    assert Annotated(h, properties[k].1);
    forall i: nat | FirstAnnotated(h, Ref(root), i) ensures i == k {
      PropertyReachable(h, root, i);
      assert properties[i].1 == Ref(id);
    }
    var first := FirstFrom(h, properties, 0);
    assert first.Some?;
    assert FirstAnnotated(h, Ref(root), first.value);
  }

  /**
   * Where the strict side finds nothing to refuse, an annotation written anywhere in the
   * schema is the only one. It is on a top-level property, the one the readers return, and
   * every part of it can be honoured.
   */
  lemma StrictImpliesLenient(h: Heap, root: Id, at: Path, visits: seq<Visit>, id: Id) returns (field: string)
    requires Finished(h, root, at, visits) && Judged(h, root, visits).problems == []
    requires Reachable(h, root, id) && Writes(h, id)
    ensures OnlyAnnotated(h, root, id) && FirstHolder(h, root, field, id) && Foremost(h, root, field, id)
    ensures Honoured(h, Ref(root), h[id], field)
    ensures SlotField(h, Ref(root)) == Some(field)
    ensures forall i: nat :: FirstAnnotated(h, Ref(root), i) ==> PropertiesOf(h, Ref(root))[i] == (field, Ref(id))
  {
    JudgedExactly(h, root, visits);
    assert id in Ids(visits);
    var v :| v in visits && v.id == id;
    var i :| 0 <= i < |visits| && visits[i] == v;
    var k :| Sole(h, root, visits, k);
    assert i == k && Genuine(h, root, at, visits[k]);
    forall other | Reachable(h, root, other) && Writes(h, other) ensures other == id {
      assert other in Ids(visits);
      var w :| w in visits && w.id == other;
      var j :| 0 <= j < |visits| && visits[j] == w;
      assert j == k;
    }
    field := visits[k].field.value;
    ForemostHolds(h, root, field, id);
    var steps :| Leads(h, root, steps, id);
    ReadersAgree(h, root, id, field);
  }

  /** The pointer of a block is written as the standard asks. */
  predicate Escaped(raw: Obj, block: string) {
    raw.Record? && Get(raw, block).Text? && WellEscapedPointer(Get(raw, block).text)
  }

  /**
   * The feeds read off an honoured annotation: one for every block written, each to a declared
   * property. Two blocks are fed by the same map exactly when their pointers, tidied, are one
   * text; never where both are well escaped.
   */
  lemma HonouredFeeds(h: Heap, root: Val, o: Obj, field: string, feeds: map<string, seq<string>>)
    requires o.Record? && Honoured(h, root, o, field)
    requires FeedsOf(feeds, h[Get(o, ANNOTATION).id], |BLOCKS|)
    ensures var raw := h[Get(o, ANNOTATION).id];
            && (forall b :: b in feeds <==> b in BLOCKS && Get(raw, b) != Undefined)
            && (forall b :: b in feeds ==>
                 Get(raw, b).Text? && PointerSegments(Get(raw, b).text) == Some(feeds[b])
                 && feeds[b] != [field] && Declares(h, root, feeds[b]))
            && (forall b, c :: b in feeds && c in feeds ==>
                 (feeds[b] == feeds[c] <==> TidyPointer(Get(raw, b).text) == TidyPointer(Get(raw, c).text)))
            && (forall b, c :: b in feeds && c in feeds && b != c && Escaped(raw, b) && Escaped(raw, c) ==>
                feeds[b] != feeds[c])
  {
    var raw := h[Get(o, ANNOTATION).id];
    assert BLOCKS[..|BLOCKS|] == BLOCKS;
    forall b | b in BLOCKS
      ensures Points(h, root, raw, b, field)
      ensures b in feeds <==> Get(raw, b) != Undefined
    {
      var i :| 0 <= i < |BLOCKS| && BLOCKS[i] == b;
      HonouredAt(h, root, raw, field, BLOCKS, |BLOCKS|, i);
    }
    forall b, c | b in feeds && c in feeds
      ensures feeds[b] == feeds[c] <==> TidyPointer(Get(raw, b).text) == TidyPointer(Get(raw, c).text)
    {
      ReadAlikeExactly(Get(raw, b).text, Get(raw, c).text);
    }
    forall b, c | b in feeds && c in feeds && b != c && Escaped(raw, b) && Escaped(raw, c)
      ensures feeds[b] != feeds[c]
    {
      var i :| 0 <= i < |BLOCKS| && BLOCKS[i] == b;
      var j :| 0 <= j < |BLOCKS| && BLOCKS[j] == c;
      HonouredAt(h, root, raw, field, BLOCKS, |BLOCKS|, if i < j then j else i);
      assert Apart(raw, BLOCKS[if i < j then i else j], BLOCKS[if i < j then j else i]);
      if feeds[b] == feeds[c] {
        PointersInjective(Get(raw, b).text, Get(raw, c).text);
      }
    }
  }

  // --- What is refused, exactly ----------------------------------------------------------------------

  /** One annotation, on a top-level property that the walk meets as one, and that can be honoured. */
  ghost predicate WellAnnotated(h: Heap, root: Id, id: Id, field: string) {
    OnlyAnnotated(h, root, id) && Foremost(h, root, field, id) && Honoured(h, Ref(root), h[id], field)
  }

  ghost predicate NoneAnnotated(h: Heap, root: Id) {
    forall id :: Reachable(h, root, id) ==> !Writes(h, id)
  }

  lemma HolderUnique(h: Heap, root: Id, field: string, other: string, id: Id)
    requires FirstHolder(h, root, field, id) && FirstHolder(h, root, other, id)
    ensures field == other
  {
    var properties := PropertiesOf(h, Ref(root));
    var i :| HolderAt(properties, i, field, id);
    var j :| HolderAt(properties, j, other, id);
    assert i == j;
  }

  /** A visit is made as a top-level property exactly where the schema is foremost as one. */
  lemma VisitedAs(h: Heap, root: Id, at: Path, v: Visit, field: string)
    requires Genuine(h, root, at, v)
    ensures v.field == Some(field) <==> Foremost(h, root, field, v.id)
  {
    if v.field.None? {
      LateNotForemost(h, root, field, v.id);
    } else if Foremost(h, root, field, v.id) {
      ForemostHolds(h, root, field, v.id);
      ForemostHolds(h, root, v.field.value, v.id);
      HolderUnique(h, root, field, v.field.value, v.id);
    }
  }

  /** Where one schema is annotated no other visit meets an annotation. */
  lemma OthersSilent(h: Heap, root: Id, at: Path, visits: seq<Visit>, k: nat, m: nat)
    requires Finished(h, root, at, visits) && k < |visits| && m < |visits| && m != k
    requires OnlyAnnotated(h, root, visits[k].id)
    ensures !Writes(h, visits[m].id)
  {
    assert visits[m] in visits && visits[m].id in Ids(visits);
    assert visits[m].id != visits[k].id;
  }

  lemma WellAnnotatedClean(h: Heap, root: Id, at: Path, visits: seq<Visit>, id: Id, field: string)
    requires Finished(h, root, at, visits) && WellAnnotated(h, root, id, field)
    ensures Clean(h, root, visits)
  {
    assert id in Ids(visits);
    var v :| v in visits && v.id == id;
    var k :| 0 <= k < |visits| && visits[k] == v;
    VisitedAs(h, root, at, v, field);
    forall m | 0 <= m < |visits| && m != k ensures !Writes(h, visits[m].id) {
      OthersSilent(h, root, at, visits, k, m);
    }
    assert Sole(h, root, visits, k);
  }

  lemma NoneAnnotatedClean(h: Heap, root: Id, at: Path, visits: seq<Visit>)
    requires Finished(h, root, at, visits) && NoneAnnotated(h, root)
    ensures Clean(h, root, visits)
  {
    forall i | 0 <= i < |visits| ensures !Writes(h, visits[i].id) {
      assert visits[i] in visits && visits[i].id in Ids(visits);
    }
  }

  /**
   * Nothing is refused exactly when nothing reachable is annotated, or one schema is, met
   * first as a top-level property, with an annotation that can be honoured.
   */
  lemma StrictExactly(h: Heap, root: Id, at: Path, visits: seq<Visit>)
    requires Finished(h, root, at, visits)
    ensures Judged(h, root, visits).problems == [] <==>
            NoneAnnotated(h, root) || exists id, field :: WellAnnotated(h, root, id, field)
  {
    JudgedExactly(h, root, visits);
    if NoneAnnotated(h, root) {
      NoneAnnotatedClean(h, root, at, visits);
    } else if Judged(h, root, visits).problems == [] {
      var id :| Reachable(h, root, id) && Writes(h, id);
      var field := StrictImpliesLenient(h, root, at, visits, id);
      assert WellAnnotated(h, root, id, field);
    } else if id, field :| WellAnnotated(h, root, id, field) {
      WellAnnotatedClean(h, root, at, visits, id, field);
    }
  }

  // --- Two blocks, one map ---------------------------------------------------------------------------

  /** An object of two entries. */
  function Pair(a: string, x: Val, b: string, y: Val): Obj {
    Record(true, true, [(a, x), (b, y)])
  }

  lemma PairHolds(a: string, x: Val, b: string, y: Val)
    requires a != b
    ensures var o := Pair(a, x, b, y); Get(o, a) == x && Get(o, b) == y && Has(o, a) && Has(o, b)
  {
    var o := Pair(a, x, b, y);
    assert o.entries[0].0 == a && o.entries[1].0 == b;
    assert o.entries[1..] == [(b, y)];
  }

  lemma PairLacks(a: string, x: Val, b: string, y: Val, key: string)
    requires key != a && key != b && key !in INHERITED
    ensures var o := Pair(a, x, b, y); Get(o, key) == Undefined && !Has(o, key)
  {
  }

  const VARIABLES_AT := "/a~b"
  const SECRETS_AT := "/a~0b"

  /** A schema whose two pointers are read alike. */
  function TwiceFed(): Heap {
    map[
      0 := Record(true, true, [("properties", Ref(1))]),
      1 := Pair("source", Ref(2), "a~b", Ref(3)),
      2 := Pair("type", Text("string"), ANNOTATION, Ref(4)),
      3 := Record(true, true, []),
      4 := Pair("variables", Text(VARIABLES_AT), "secrets", Text(SECRETS_AT))
    ]
  }

  lemma TwiceFedProperties()
    ensures HasProperties(TwiceFed(), Ref(0))
        && PropertiesOf(TwiceFed(), Ref(0)) == [("source", Ref(2)), ("a~b", Ref(3))]
    ensures Declares(TwiceFed(), Ref(0), ["a~b"])
  {
    var h := TwiceFed();
    assert h[0].entries[0].0 == "properties";
    assert Get(h[0], "properties") == Ref(1);
    PairHolds("source", Ref(2), "a~b", Ref(3));
    assert ["a~b"][1..] == [];
    assert Declares(h, Ref(3), []);
  }

  lemma TwiceFedBlocks()
    ensures var o := TwiceFed()[4];
            && Get(o, "variables") == Text(VARIABLES_AT) && Get(o, "secrets") == Text(SECRETS_AT)
            && Get(o, "ports") == Undefined && Get(o, "needs") == Undefined
    ensures PointerSegments(VARIABLES_AT) == PointerSegments(SECRETS_AT) == Some(["a~b"]) && VARIABLES_AT != SECRETS_AT
  {
    PairHolds("variables", Text(VARIABLES_AT), "secrets", Text(SECRETS_AT));
    PairLacks("variables", Text(VARIABLES_AT), "secrets", Text(SECRETS_AT), "ports");
    PairLacks("variables", Text(VARIABLES_AT), "secrets", Text(SECRETS_AT), "needs");
    LoneTildeIsRead();
    EscapedTildeIsRead();
  }

  /** Two blocks with pointers of their own, and nothing else, are honoured. */
  lemma TwoBlocksHonoured(h: Heap, root: Val, o: Obj, field: string)
    requires o.Record? && Points(h, root, o, "variables", field) && Points(h, root, o, "secrets", field)
    requires Get(o, "variables") != Get(o, "secrets") && Get(o, "ports") == Undefined && Get(o, "needs") == Undefined
    ensures BlocksHonoured(h, root, o, field, BLOCKS, 4)
  {
    assert BLOCKS[0] == "variables" && BLOCKS[1] == "secrets" && BLOCKS[2] == "ports" && BLOCKS[3] == "needs";
    assert Apart(o, BLOCKS[0], BLOCKS[1]) && Points(h, root, o, BLOCKS[2], field)
        && Points(h, root, o, BLOCKS[3], field);
    assert BlocksHonoured(h, root, o, field, BLOCKS, 0);
    assert BlocksHonoured(h, root, o, field, BLOCKS, 1);
    assert BlocksHonoured(h, root, o, field, BLOCKS, 2);
    assert BlocksHonoured(h, root, o, field, BLOCKS, 3);
  }

  lemma TwiceFedPoints()
    ensures Points(TwiceFed(), Ref(0), TwiceFed()[4], "variables", "source")
    ensures Points(TwiceFed(), Ref(0), TwiceFed()[4], "secrets", "source")
  {
    TwiceFedProperties();
    TwiceFedBlocks();
    assert ["a~b"][0][0] != ["source"][0][0];
  }

  lemma TwiceFedSource()
    ensures var o := TwiceFed()[2];
            Get(o, "type") == Text("string") && Get(o, ANNOTATION) == Ref(4) && Has(o, ANNOTATION) && !Has(o, EVAL)
  {
    PairHolds("type", Text("string"), ANNOTATION, Ref(4));
    PairLacks("type", Text("string"), ANNOTATION, Ref(4), EVAL);
  }

  lemma HonouredBy(h: Heap, root: Val, o: Obj, field: string, id: Id, x: Val, y: Val)
    requires o.Record? && Get(o, "type") == Text("string") && !Has(o, EVAL) && Get(o, ANNOTATION) == Ref(id)
    requires id in h && h[id] == Pair("variables", x, "secrets", y) && BlocksHonoured(h, root, h[id], field, BLOCKS, 4)
    ensures Honoured(h, root, o, field)
  {
    var entries := h[id].entries;
    assert BLOCKS[0] == "variables" && BLOCKS[1] == "secrets";
    assert entries[0].0 in BLOCKS && entries[1].0 in BLOCKS;
  }

  lemma TwiceFedHonoured()
    ensures Honoured(TwiceFed(), Ref(0), TwiceFed()[2], "source") && Writes(TwiceFed(), 2)
  {
    TwiceFedSource();
    TwiceFedBlocks();
    TwiceFedPoints();
    TwoBlocksHonoured(TwiceFed(), Ref(0), TwiceFed()[4], "source");
    HonouredBy(TwiceFed(), Ref(0), TwiceFed()[2], "source", 4, Text(VARIABLES_AT), Text(SECRETS_AT));
  }

  lemma TwiceFedAlone(other: Id)
    requires Writes(TwiceFed(), other)
    ensures other == 2
  {
    PairLacks("source", Ref(2), "a~b", Ref(3), ANNOTATION);
    PairLacks("variables", Text(VARIABLES_AT), "secrets", Text(SECRETS_AT), ANNOTATION);
  }

  lemma TwiceFedAnnotated()
    ensures WellAnnotated(TwiceFed(), 0, 2, "source")
  {
    TwiceFedProperties();
    TwiceFedHonoured();
    PropertyReachable(TwiceFed(), 0, 0);
    forall other | Reachable(TwiceFed(), 0, other) && Writes(TwiceFed(), other) ensures other == 2 {
      TwiceFedAlone(other);
    }
    FirstForemost(TwiceFed(), 0, "source", 2);
  }

  /** The first property of all is foremost. */
  lemma FirstForemost(h: Heap, root: Id, name: string, id: Id)
    requires HasProperties(h, Ref(root)) && |PropertiesOf(h, Ref(root))| > 0
        && PropertiesOf(h, Ref(root))[0] == (name, Ref(id))
    requires id != root
    ensures Foremost(h, root, name, id)
  {
    assert HolderAt(PropertiesOf(h, Ref(root)), 0, name, id);
    assert ForemostAt(h, root, 0, name, id);
  }

  /** Two blocks whose pointers are read alike are fed alike. */
  lemma FedAlike(feeds: map<string, seq<string>>, o: Obj, b: string, c: string, segments: seq<string>)
    requires o.Record? && FeedsOf(feeds, o, |BLOCKS|) && b in BLOCKS && c in BLOCKS
    requires SegmentsOf(Get(o, b)) == SegmentsOf(Get(o, c)) == Some(segments)
    ensures b in feeds && c in feeds && feeds[b] == feeds[c] == segments
  {
    assert BLOCKS[..|BLOCKS|] == BLOCKS;
  }

  /** Nothing in it is refused, and one map feeds two of its blocks. */
  lemma OneMapFeedsTwo(at: Path, visits: seq<Visit>, feeds: map<string, seq<string>>)
    requires Finished(TwiceFed(), 0, at, visits)
    requires FeedsOf(feeds, TwiceFed()[4], |BLOCKS|)
    ensures WellAnnotated(TwiceFed(), 0, 2, "source") && Judged(TwiceFed(), 0, visits).problems == []
    ensures "variables" in feeds && "secrets" in feeds && feeds["variables"] == feeds["secrets"] == ["a~b"]
  {
    TwiceFedAnnotated();
    StrictExactly(TwiceFed(), 0, at, visits);
    TwiceFedBlocks();
    assert BLOCKS[0] == "variables" && BLOCKS[1] == "secrets";
    FedAlike(feeds, TwiceFed()[4], "variables", "secrets", ["a~b"]);
  }
}
