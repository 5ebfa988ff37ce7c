/**
 * `accessorFields`: the accessor fields a resource fills, found by one walk; and the
 * delivery of a resource, the walk followed by the writer.
 */
module AccessorFields {
  import opened AccessorBinding
  import opened AccessorTree
  import opened AccessorWriter
  import opened PathText
  import opened Prelude

  datatype Site = Site(path: string, bindings: seq<string>)

  /** The accessor field a path text names, if it names one. */
  type Sites = string -> Option<Site>

  datatype Field = Field(site: Site, path: string, keys: Path, value: Val)

  /** The path is an accessor field's. The empty text, the resource's own, never is. */
  predicate IsSite(sites: Sites, keys: Path) {
    TextOf(keys) != "" && sites(TextOf(keys)).Some?
  }

  /** The fields the walk finds at and beneath the value at `keys`. */
  ghost function FieldsIn(g: Graph, v: Val, keys: Path, sites: Sites): seq<Field>
    requires g.Falling() && g.Holds(v)
    decreases g.Height(v), 1, 0
  {
    if IsSite(sites, keys) then
      if v.Undefined? then [] else [Field(sites(TextOf(keys)).value, TextOf(keys), keys, v)]
    else if g.Enterable(v) then FieldsBelow(g, v.node, keys, sites, |g.nodes[v.node].order|)
    else []
  }

  ghost function FieldsBelow(g: Graph, n: Node, keys: Path, sites: Sites, i: nat): seq<Field>
    requires g.Falling() && n in g.nodes && i <= |g.nodes[n].order|
    decreases g.Height(Ref(n)), 0, i
  {
    if i == 0 then []
    else
      var k := g.nodes[n].order[i - 1];
      FieldsBelow(g, n, keys, sites, i - 1)
      + if k in g.nodes[n].vals then FieldsIn(g, g.nodes[n].vals[k], keys + [k], sites) else []
  }

  // --- The walk -----------------------------------------------------------------------------

  lemma TextOfSnoc(keys: Path, k: Key)
    ensures TextOf(keys + [k]) == Child(TextOf(keys), k)
  {
    assert (keys + [k])[..|keys + [k]| - 1] == keys;
  }

  class FieldWalker {
    var out: seq<Field>

    constructor ()
      ensures out == []
    {
      out := [];
    }

    method Walk(v: Val, path: string, keys: Path, sites: Sites, ghost g: Graph)
      requires g.Valid() && g.Holds(v) && g.Depicts()
      requires path == TextOf(keys)
      modifies this
      ensures out == old(out) + FieldsIn(g, v, keys, sites)
      decreases g.Height(v), 1
    {
      if path != "" {
        var site := sites(path);
        if site.Some? {
          if !v.Undefined? {
            out := out + [Field(site.value, path, keys, v)];
          }
          return;
        }
      }
      if v.Ref? && (v.node.isArray || v.node.plain) {
        assert g.nodes[v.node] == v.node.Get();
        WalkBelow(v.node, path, keys, sites, g);
      }
    }

    method WalkBelow(n: Node, path: string, keys: Path, sites: Sites, ghost g: Graph)
      requires g.Valid() && n in g.nodes && g.Depicts()
      requires path == TextOf(keys)
      modifies this
      ensures out == old(out) + FieldsBelow(g, n, keys, sites, |g.nodes[n].order|)
      decreases g.Height(Ref(n)), 0
    {
      ghost var before := out;
      assert g.nodes[n] == n.Get() && g.Sound(n);
      for i := 0 to |n.order|
        invariant out == before + FieldsBelow(g, n, keys, sites, i)
      {
        var k := n.order[i];
        assert k in g.nodes[n].vals;
        ChildHeld(g, n, k);
        TextOfSnoc(keys, k);
        Walk(n.vals[k], Child(path, k), keys + [k], sites, g);
        Regroup3(before, FieldsBelow(g, n, keys, sites, i), FieldsIn(g, g.nodes[n].vals[k], keys + [k], sites));
      }
    }
  }

  method FindFields(resource: Node, sites: Sites, ghost g: Graph) returns (fields: seq<Field>)
    requires g.Valid() && resource in g.nodes && g.Depicts()
    ensures fields == FieldsIn(g, Ref(resource), [], sites)
  {
    var walker := new FieldWalker();
    walker.Walk(Ref(resource), "", [], sites, g);
    fields := walker.out;
  }

  // --- What it finds -------------------------------------------------------------------------

  /** No container on the way from `keys` along `rest` is an accessor field itself. */
  ghost predicate Outermost(sites: Sites, keys: Path, rest: Path) {
    forall m {:trigger rest[..m]} :: 0 <= m < |rest| ==> !IsSite(sites, keys + rest[..m])
  }

  /** An accessor field, with the value there, at the end of `rest`. */
  ghost predicate FieldAt(g: Graph, v: Val, keys: Path, sites: Sites, rest: Path, f: Field)
    requires g.Holds(v)
  {
    && f.keys == keys + rest && f.path == TextOf(f.keys)
    && IsSite(sites, f.keys) && sites(f.path) == Some(f.site)
    && f.value != Undefined && g.At(v, rest) == Some(f.value)
    && Outermost(sites, keys, rest)
  }

  lemma OutermostStep(sites: Sites, keys: Path, k: Key, rest: Path)
    ensures Outermost(sites, keys, [k] + rest) <==> !IsSite(sites, keys) && Outermost(sites, keys + [k], rest)
  {
    var whole := [k] + rest;
    assert keys + whole[..0] == keys;
    forall m | 0 <= m < |rest| ensures keys + whole[..m + 1] == keys + [k] + rest[..m] {
      assert whole[..m + 1] == [k] + rest[..m];
    }
    if Outermost(sites, keys, whole) {
      assert !IsSite(sites, keys + whole[..0]);
      forall m | 0 <= m < |rest| ensures !IsSite(sites, keys + [k] + rest[..m]) {
        assert !IsSite(sites, keys + whole[..m + 1]);
      }
    }
    if !IsSite(sites, keys) && Outermost(sites, keys + [k], rest) {
      forall m | 0 <= m < |whole| ensures !IsSite(sites, keys + whole[..m]) {
        if m > 0 {
          assert !IsSite(sites, keys + [k] + rest[..m - 1]);
        }
      }
    }
  }

  lemma FieldStep(g: Graph, n: Node, keys: Path, sites: Sites, k: Key, rest: Path, f: Field)
    requires g.Falling() && n in g.nodes && k in g.nodes[n].vals && g.Enterable(Ref(n))
    requires g.Holds(g.nodes[n].vals[k])
    ensures FieldAt(g, Ref(n), keys, sites, [k] + rest, f) <==>
            (!IsSite(sites, keys) && FieldAt(g, g.nodes[n].vals[k], keys + [k], sites, rest, f))
  {
    assert ([k] + rest)[1..] == rest;
    Regroup3(keys, [k], rest);
    OutermostStep(sites, keys, k, rest);
  }

  lemma {:induction false} BelowOf(g: Graph, n: Node, keys: Path, sites: Sites, i: nat, f: Field) returns (j: nat)
    requires g.Falling() && n in g.nodes && i <= |g.nodes[n].order|
    requires f in FieldsBelow(g, n, keys, sites, i)
    ensures j < i && var k := g.nodes[n].order[j];
            k in g.nodes[n].vals && g.Holds(g.nodes[n].vals[k])
                && f in FieldsIn(g, g.nodes[n].vals[k], keys + [k], sites)
  {
    j := i - 1;
    if f in FieldsBelow(g, n, keys, sites, i - 1) {
      j := BelowOf(g, n, keys, sites, i - 1, f);
    } else {
      ChildHeld(g, n, g.nodes[n].order[j]);
    }
  }

  lemma {:induction false} BelowKeeps(g: Graph, n: Node, keys: Path, sites: Sites, i: nat, j: nat, f: Field)
    requires g.Falling() && n in g.nodes && j < i <= |g.nodes[n].order|
    requires var k := g.nodes[n].order[j];
             k in g.nodes[n].vals && g.Holds(g.nodes[n].vals[k])
                 && f in FieldsIn(g, g.nodes[n].vals[k], keys + [k], sites)
    ensures f in FieldsBelow(g, n, keys, sites, i)
  {
    if j < i - 1 {
      BelowKeeps(g, n, keys, sites, i - 1, j, f);
    }
  }

  lemma {:induction false} FieldReal(g: Graph, v: Val, keys: Path, sites: Sites, f: Field) returns (rest: Path)
    requires g.Falling() && g.Holds(v)
    requires f in FieldsIn(g, v, keys, sites)
    ensures FieldAt(g, v, keys, sites, rest, f)
    decreases g.Height(v)
  {
    rest := [];
    if IsSite(sites, keys) {
      assert keys + [] == keys;
    } else {
      var j := BelowOf(g, v.node, keys, sites, |g.nodes[v.node].order|, f);
      var k := g.nodes[v.node].order[j];
      ChildHeld(g, v.node, k);
      var deeper := FieldReal(g, g.nodes[v.node].vals[k], keys + [k], sites, f);
      FieldStep(g, v.node, keys, sites, k, deeper, f);
      rest := [k] + deeper;
    }
  }

  lemma {:induction false} FieldFound(g: Graph, v: Val, keys: Path, sites: Sites, rest: Path, f: Field)
    requires g.Valid() && g.Holds(v)
    requires FieldAt(g, v, keys, sites, rest, f)
    ensures f in FieldsIn(g, v, keys, sites)
    decreases |rest|
  {
    if |rest| == 0 {
      assert keys + [] == keys;
    } else {
      var n, k := v.node, rest[0];
      assert rest == [k] + rest[1..] && g.Sound(n);
      var j :| 0 <= j < |g.nodes[n].order| && g.nodes[n].order[j] == k;
      FieldStep(g, n, keys, sites, k, rest[1..], f);
      FieldFound(g, g.nodes[n].vals[k], keys + [k], sites, rest[1..], f);
      BelowKeeps(g, n, keys, sites, |g.nodes[n].order|, j, f);
    }
  }

  /** An outermost accessor field of the resource, filled. */
  ghost predicate Position(g: Graph, resource: Node, sites: Sites, p: Path)
    requires resource in g.nodes
  {
    && IsSite(sites, p) && Outermost(sites, [], p)
    && g.At(Ref(resource), p).Some? && g.At(Ref(resource), p).value != Undefined
  }

  ghost function FieldOf(g: Graph, resource: Node, sites: Sites, p: Path): Field
    requires resource in g.nodes && Position(g, resource, sites, p)
  {
    Field(sites(TextOf(p)).value, TextOf(p), p, g.At(Ref(resource), p).value)
  }

  /** The walk finds the outermost accessor fields that are filled, and nothing else. */
  lemma FieldsExact(g: Graph, resource: Node, sites: Sites, f: Field)
    requires g.Valid() && resource in g.nodes
    ensures f in FieldsIn(g, Ref(resource), [], sites) <==>
            (Position(g, resource, sites, f.keys) && f == FieldOf(g, resource, sites, f.keys))
  {
    assert [] + f.keys == f.keys;
    if f in FieldsIn(g, Ref(resource), [], sites) {
      var rest := FieldReal(g, Ref(resource), [], sites, f);
      assert f.keys == [] + rest == rest;
    }
    if Position(g, resource, sites, f.keys) && f == FieldOf(g, resource, sites, f.keys) {
      FieldFound(g, Ref(resource), [], sites, f.keys, f);
    }
  }

  // --- Their paths ----------------------------------------------------------------------------

  ghost predicate Apart(fields: seq<Field>) {
    forall i, j {:trigger Begins(fields[i].keys, fields[j].keys)} ::
      0 <= i < |fields| && 0 <= j < |fields| && i != j ==> !Begins(fields[i].keys, fields[j].keys)
  }

  ghost predicate AllUnder(keys: Path, fields: seq<Field>) {
    forall f :: f in fields ==> keys <= f.keys
  }

  lemma FieldsUnder(g: Graph, v: Val, keys: Path, sites: Sites)
    requires g.Falling() && g.Holds(v)
    ensures AllUnder(keys, FieldsIn(g, v, keys, sites))
  {
    forall f | f in FieldsIn(g, v, keys, sites) ensures keys <= f.keys {
      var rest := FieldReal(g, v, keys, sites, f);
    }
  }

  /** Fields beneath different keys of a container do not begin one another. */
  lemma SiblingsApart(keys: Path, k: Key, l: Key, p: Path, q: Path)
    requires k != l && keys + [k] <= p && keys + [l] <= q
    ensures !(p <= q)
  {
    assert p[|keys|] == (keys + [k])[|keys|] == k;
    assert q[|keys|] == (keys + [l])[|keys|] == l;
  }

  ghost predicate NeitherBegins(a: seq<Field>, b: seq<Field>) {
    forall f, h :: f in a && h in b ==> !Begins(f.keys, h.keys) && !Begins(h.keys, f.keys)
  }

  lemma ApartJoin(a: seq<Field>, b: seq<Field>)
    requires Apart(a) && Apart(b)
    requires NeitherBegins(a, b)
    ensures Apart(a + b)
  {
    var all := a + b;
    forall i, j | 0 <= i < |all| && 0 <= j < |all| && i != j ensures !Begins(all[i].keys, all[j].keys) {
      assert i < |a| ==> all[i] == a[i] && a[i] in a;
      assert i >= |a| ==> all[i] == b[i - |a|] && b[i - |a|] in b;
      assert j < |a| ==> all[j] == a[j] && a[j] in a;
      assert j >= |a| ==> all[j] == b[j - |a|] && b[j - |a|] in b;
    }
  }

  /** A field beneath a later key begins none beneath an earlier one, nor the other way round. */
  lemma LaterApart(g: Graph, n: Node, keys: Path, sites: Sites, i: nat, f: Field, h: Field)
    requires g.Valid() && n in g.nodes && i < |g.nodes[n].order|
    requires f in FieldsBelow(g, n, keys, sites, i) && keys + [g.nodes[n].order[i]] <= h.keys
    ensures !Begins(f.keys, h.keys) && !Begins(h.keys, f.keys)
  {
    var j := BelowOf(g, n, keys, sites, i, f);
    var k, l := g.nodes[n].order[i], g.nodes[n].order[j];
    assert g.Sound(n);
    FieldsUnder(g, g.nodes[n].vals[l], keys + [l], sites);
    SiblingsApart(keys, l, k, f.keys, h.keys);
    SiblingsApart(keys, k, l, h.keys, f.keys);
  }

  lemma {:induction false} FieldsApart(g: Graph, v: Val, keys: Path, sites: Sites)
    requires g.Valid() && g.Holds(v)
    ensures Apart(FieldsIn(g, v, keys, sites))
    decreases g.Height(v), 1, 0
  {
    if !IsSite(sites, keys) && g.Enterable(v) {
      BelowApart(g, v.node, keys, sites, |g.nodes[v.node].order|);
    }
  }

  lemma PartsApart(g: Graph, n: Node, keys: Path, sites: Sites, i: nat)
    requires g.Valid() && n in g.nodes && i < |g.nodes[n].order|
    requires g.nodes[n].order[i] in g.nodes[n].vals && g.Holds(g.nodes[n].vals[g.nodes[n].order[i]])
    ensures NeitherBegins(FieldsBelow(g, n, keys, sites, i),
                          FieldsIn(g, g.nodes[n].vals[g.nodes[n].order[i]], keys + [g.nodes[n].order[i]], sites))
  {
    var k := g.nodes[n].order[i];
    FieldsUnder(g, g.nodes[n].vals[k], keys + [k], sites);
    forall f, h | f in FieldsBelow(g, n, keys, sites, i) && h in FieldsIn(g, g.nodes[n].vals[k], keys + [k], sites)
      ensures !Begins(f.keys, h.keys) && !Begins(h.keys, f.keys)
    {
      LaterApart(g, n, keys, sites, i, f, h);
    }
  }

  lemma ApartNext(g: Graph, n: Node, keys: Path, sites: Sites, i: nat, k: Key)
    requires g.Valid() && n in g.nodes && i < |g.nodes[n].order| && k == g.nodes[n].order[i]
    requires k in g.nodes[n].vals && g.Holds(g.nodes[n].vals[k])
    requires Apart(FieldsBelow(g, n, keys, sites, i)) && Apart(FieldsIn(g, g.nodes[n].vals[k], keys + [k], sites))
    ensures Apart(FieldsBelow(g, n, keys, sites, i + 1))
  {
    PartsApart(g, n, keys, sites, i);
    ApartJoin(FieldsBelow(g, n, keys, sites, i), FieldsIn(g, g.nodes[n].vals[k], keys + [k], sites));
  }

  lemma {:induction false} BelowApart(g: Graph, n: Node, keys: Path, sites: Sites, i: nat)
    requires g.Valid() && n in g.nodes && i <= |g.nodes[n].order|
    ensures Apart(FieldsBelow(g, n, keys, sites, i))
    decreases g.Height(Ref(n)), 0, i
  {
    if i > 0 {
      var k := g.nodes[n].order[i - 1];
      assert g.Sound(n) && k in g.nodes[n].order;
      ChildHeld(g, n, k);
      BelowApart(g, n, keys, sites, i - 1);
      FieldsApart(g, g.nodes[n].vals[k], keys + [k], sites);
      ApartNext(g, n, keys, sites, i - 1, k);
    }
  }

  // --- Delivery --------------------------------------------------------------------------------

  function Replacements(fields: seq<Field>, rules: Rules): (r: seq<Replacement>)
    ensures |r| == |fields|
    ensures forall i :: 0 <= i < |fields| ==> r[i] == Replacement(fields[i].keys, BindingOf(fields[i].value, rules))
  {
    seq(|fields|, i requires 0 <= i < |fields| => Replacement(fields[i].keys, BindingOf(fields[i].value, rules)))
  }

  /** A value found along a path is held by the container before it. */
  lemma {:induction false} AtExists(g: Graph, n: Node, keys: Path)
    requires g.Falling() && n in g.nodes && |keys| > 0
    requires g.At(Ref(n), keys).Some?
    ensures Existing(g, n, keys)
    decreases |keys|
  {
    var rest := keys[1..];
    if |keys| > 1 {
      var child := g.nodes[n].vals[keys[0]];
      AtExists(g, child.node, rest);
      var init := keys[..|keys| - 1];
      assert init[0] == keys[0] && init[1..] == rest[..|rest| - 1] && rest[|rest| - 1] == keys[|keys| - 1];
      assert g.NodeAt(n, init) == g.NodeAt(child.node, init[1..]);
    } else {
      assert keys[..0] == [];
    }
  }

  /** The fields found can all be replaced in one write. */
  lemma FieldsWritable(g: Graph, resource: Node, sites: Sites, rules: Rules)
    requires g.Valid() && resource in g.nodes
    ensures PrefixFree(Replacements(FieldsIn(g, Ref(resource), [], sites), rules))
    ensures AllExisting(g, resource, Replacements(FieldsIn(g, Ref(resource), [], sites), rules))
  {
    var fields := FieldsIn(g, Ref(resource), [], sites);
    var all := Replacements(fields, rules);
    forall i | 0 <= i < |fields| ensures all[i].keys != [] && Existing(g, resource, all[i].keys) {
      assert fields[i] in fields;
      FieldsExact(g, resource, sites, fields[i]);
      AtExists(g, resource, fields[i].keys);
    }
    FieldsApart(g, Ref(resource), [], sites);
    forall i, j | 0 <= i < |all| && 0 <= j < |all| && i != j ensures !Begins(all[i].keys, all[j].keys) {
      assert !Begins(fields[i].keys, fields[j].keys);
    }
  }

  /** The paths of `at` are those of the outermost accessor fields, each with its value's binding. */
  ghost predicate BindsFields(at: map<Path, Binding>, g: Graph, resource: Node, sites: Sites, rules: Rules)
    requires resource in g.nodes
  {
    && (forall p :: p in at <==> Position(g, resource, sites, p))
    && (forall p :: p in at ==> BoundAs(FieldOf(g, resource, sites, p).value, rules, at[p]))
  }

  lemma ReplacementsBind(g: Graph, resource: Node, sites: Sites, rules: Rules)
    requires g.Valid() && resource in g.nodes
    ensures BindsFields(BindingsOf(Replacements(FieldsIn(g, Ref(resource), [], sites), rules)), g, resource, sites,
        rules)
  {
    var fields := FieldsIn(g, Ref(resource), [], sites);
    var all := Replacements(fields, rules);
    FieldsWritable(g, resource, sites, rules);
    BindingsAt(all, |all|);
    forall p | p in BindingsOf(all)
      ensures Position(g, resource, sites, p)
      ensures BoundAs(FieldOf(g, resource, sites, p).value, rules, BindingsOf(all)[p])
    {
      var i :| 0 <= i < |all| && all[i].keys == p;
      assert fields[i] in fields;
      FieldsExact(g, resource, sites, fields[i]);
      BindingExactly(FieldOf(g, resource, sites, p).value, rules, BindingsOf(all)[p]);
    }
    forall p | Position(g, resource, sites, p) ensures p in BindingsOf(all) {
      FieldsExact(g, resource, sites, FieldOf(g, resource, sites, p));
      var i :| 0 <= i < |fields| && fields[i] == FieldOf(g, resource, sites, p);
      assert all[i].keys == p;
    }
  }

  /** A field whose value cannot stay. */
  ghost predicate Faulty(g: Graph, f: Field, rules: Rules)
    requires g.Falling() && g.Holds(f.value)
  {
    Problems(g, f.value, f.path, f.site.bindings, rules) != []
  }

  ghost predicate AllHeld(g: Graph, fields: seq<Field>) {
    forall i :: 0 <= i < |fields| ==> g.Holds(fields[i].value)
  }

  lemma FieldsHeld(g: Graph, resource: Node, sites: Sites)
    requires g.Valid() && resource in g.nodes
    ensures AllHeld(g, FieldsIn(g, Ref(resource), [], sites))
  {
    var fields := FieldsIn(g, Ref(resource), [], sites);
    forall i | 0 <= i < |fields| ensures g.Holds(fields[i].value) {
      assert fields[i] in fields;
      FieldsExact(g, resource, sites, fields[i]);
    }
  }

  /** The fields of a resource, refused at the first one with a problem. */
  method RefuseNonChainAccessors(resource: Node, sites: Sites, rules: Rules, ghost g: Graph)
    returns (refused: bool, fields: seq<Field>)
    requires g.Valid() && resource in g.nodes && g.Depicts()
    ensures fields == FieldsIn(g, Ref(resource), [], sites) && AllHeld(g, fields)
    ensures refused <==> exists i :: 0 <= i < |fields| && Faulty(g, fields[i], rules)
  {
    fields := FindFields(resource, sites, g);
    FieldsHeld(g, resource, sites);
    for i := 0 to |fields|
      invariant forall j :: 0 <= j < i ==> !Faulty(g, fields[j], rules)
    {
      var problems := AccessorProblems(fields[i].value, fields[i].path, fields[i].site.bindings, rules, g);
      if |problems| > 0 {
        assert Faulty(g, fields[i], rules);
        return true, fields;
      }
    }
    refused := false;
  }

  /** Neither a chain of the field's own nor a literal free of tags. */
  ghost predicate Unfit(g: Graph, f: Field, rules: Rules) {
    && g.Holds(f.value) && !NamesChain(f.value, f.site.bindings, rules)
    && exists rest :: Unresolved(g, f.value, rest, rules)
  }

  ghost predicate MustRefuse(g: Graph, resource: Node, sites: Sites, rules: Rules)
    requires resource in g.nodes
  {
    exists p :: Position(g, resource, sites, p) && Unfit(g, FieldOf(g, resource, sites, p), rules)
  }

  lemma FaultyUnfit(g: Graph, f: Field, rules: Rules)
    requires g.Valid() && g.Holds(f.value)
    ensures Faulty(g, f, rules) <==> Unfit(g, f, rules)
  {
    AcceptedExactly(g, f.value, f.path, f.site.bindings, rules);
  }

  lemma RefusedExactly(g: Graph, resource: Node, sites: Sites, rules: Rules, fields: seq<Field>)
    requires g.Valid() && resource in g.nodes
    requires fields == FieldsIn(g, Ref(resource), [], sites) && AllHeld(g, fields)
    ensures (exists i :: 0 <= i < |fields| && Faulty(g, fields[i], rules)) <==> MustRefuse(g, resource, sites, rules)
  {
    if i :| 0 <= i < |fields| && Faulty(g, fields[i], rules) {
      assert fields[i] in fields;
      FieldsExact(g, resource, sites, fields[i]);
      FaultyUnfit(g, fields[i], rules);
      assert Position(g, resource, sites, fields[i].keys);
    }
    if p :| Position(g, resource, sites, p) && Unfit(g, FieldOf(g, resource, sites, p), rules) {
      var f := FieldOf(g, resource, sites, p);
      FieldsExact(g, resource, sites, f);
      FaultyUnfit(g, f, rules);
      var i :| 0 <= i < |fields| && fields[i] == f;
      assert Faulty(g, fields[i], rules);
    }
  }

  lemma NoneBound(fields: seq<Replacement>)
    ensures BindingsOf(fields) == map[] <==> fields == []
  {
    if |fields| > 0 {
      assert fields[|fields| - 1].keys in BindingsOf(fields);
    }
  }

  /** The resource with the bindings of its fields: itself where there are none, else a copy. */
  method Write(resource: Node, fields: seq<Replacement>, ghost g: Graph)
    returns (root: Node, ghost after: Graph)
    requires g.Falling() && g.Depicts() && resource in g.nodes
    requires PrefixFree(fields) && AllExisting(g, resource, fields)
    ensures g.Depicts() && after.Depicts() && after.Falling() && after.Holds(Ref(root))
    ensures after.Unfold(Ref(root)) == Substitute(g.Unfold(Ref(resource)), [], BindingsOf(fields))
    ensures if BindingsOf(fields) == map[] then root == resource else fresh(root)
  {
    NoneBound(fields);
    ghost var w;
    root, w := WithAccessorBindings(resource, fields, g);
    if |fields| == 0 {
      after := g;
      SubstituteNothing(g.Unfold(Ref(resource)), [], BindingsOf(fields));
    } else {
      after := After(w);
    }
  }

  /**
   * A resource as its controller receives it. It is refused exactly when some accessor field
   * holds what none can; otherwise it stands for the resource with each outermost accessor
   * field, and nothing else, replaced by its binding, and the resource itself is untouched;
   * it is the resource itself exactly when no accessor field holds a value.
   */
  method Deliver(resource: Node, sites: Sites, rules: Rules, ghost g: Graph)
    returns (delivered: Option<Node>, ghost after: Graph, ghost at: map<Path, Binding>)
    requires g.Valid() && resource in g.nodes && g.Depicts()
    ensures g.Depicts()
    ensures delivered.None? <==> MustRefuse(g, resource, sites, rules)
    ensures delivered.Some? ==>
              && BindsFields(at, g, resource, sites, rules)
              && after.Depicts() && after.Falling() && after.Holds(Ref(delivered.value))
              && after.Unfold(Ref(delivered.value)) == Substitute(g.Unfold(Ref(resource)), [], at)
              && if at == map[] then delivered.value == resource else fresh(delivered.value)
  {
    var refused, fields := RefuseNonChainAccessors(resource, sites, rules, g);
    RefusedExactly(g, resource, sites, rules, fields);
    after, at := g, map[];
    if refused {
      return None, after, at;
    }
    FieldsWritable(g, resource, sites, rules);
    ReplacementsBind(g, resource, sites, rules);
    at := BindingsOf(Replacements(fields, rules));
    var root;
    root, after := Write(resource, Replacements(fields, rules), g);
    delivered := Some(root);
  }

  // --- A delivery, by example ------------------------------------------------------------------

  /** The one field, `done`, bound to `row`. */
  function DoneSite(): Sites {
    (text: string) => if text == "done" then Some(Site("done", ["row"])) else None
  }

  const COMPILED_CHAIN := Tagged(Tag("cel", " row.done", CompiledSentinel))

  lemma RowDone(rules: Rules)
    ensures WritesChain(COMPILED_CHAIN, ["row", "done"])
    ensures rules.Open(COMPILED_CHAIN.tag) ==> NamesChain(COMPILED_CHAIN, ["row"], rules)
    ensures rules.Open(COMPILED_CHAIN.tag) ==> BindingOf(COMPILED_CHAIN, rules) == Chain("row", ["done"])
  {
    var parts := ["row", "done"];
    assert parts[1..] == ["done"];
    assert Join(["done"], '.') == "done" && Join(parts, '.') == "row" + "." + "done" == "row.done";
    assert " row.done"[1..] == "row.done";
    assert TrimStart("row.done") == "row.done" && TrimEnd("row.done") == "row.done";
    assert WritesChain(COMPILED_CHAIN, parts);
    assert NamesChain(COMPILED_CHAIN, ["row"], rules) || !rules.Open(COMPILED_CHAIN.tag);
    BindingExactly(COMPILED_CHAIN, rules, BindingOf(COMPILED_CHAIN, rules));
  }

  lemma DonePosition(g: Graph, resource: Node, p: Path)
    requires resource in g.nodes
    requires g.nodes[resource] == Contents(false, true, [Name("done")], map[Name("done") := COMPILED_CHAIN])
    ensures Position(g, resource, DoneSite(), p) <==> p == [Name("done")]
    ensures g.At(Ref(resource), [Name("done")]) == Some(COMPILED_CHAIN)
  {
    var done := [Name("done")];
    assert done[1..] == [] && done[..0] == [];
    assert TextOf([]) == "" && TextOf(done) == "done";
    assert g.At(COMPILED_CHAIN, []) == Some(COMPILED_CHAIN);
    if p == done {
      assert forall m {:trigger p[..m]} :: 0 <= m < |p| ==> [] + p[..m] == [];
    }
    if Position(g, resource, DoneSite(), p) {
      assert p[0] == Name("done");
      assert g.At(COMPILED_CHAIN, p[1..]).Some?;
      assert p == [p[0]] + p[1..];
    }
  }

  lemma DoneAccepted(g: Graph, resource: Node, rules: Rules)
    requires resource in g.nodes && rules.Open(COMPILED_CHAIN.tag)
    requires g.nodes[resource] == Contents(false, true, [Name("done")], map[Name("done") := COMPILED_CHAIN])
    ensures !MustRefuse(g, resource, DoneSite(), rules)
  {
    DonePosition(g, resource, [Name("done")]);
    RowDone(rules);
    assert TextOf([Name("done")]) == "done" by {
      assert [Name("done")][..0] == [];
    }
    forall p | Position(g, resource, DoneSite(), p) ensures !Unfit(g, FieldOf(g, resource, DoneSite(), p), rules) {
      DonePosition(g, resource, p);
    }
  }

  lemma OneReplaced(k: Key, kid: Tree, at: map<Path, Binding>)
    requires [] !in at && [k] in at
    ensures Substitute(Branch(false, [k], map[k := kid]), [], at) == Branch(false, [k], map[k := Replaced(at[[k]])])
  {
    assert [] + [k] == [k];
  }

  lemma OneUnfolded(g: Graph, n: Node, k: Key, v: Val)
    requires g.Falling() && n in g.nodes && g.nodes[n] == Contents(false, true, [k], map[k := v])
    requires !v.Ref? && !v.Bound?
    ensures g.Unfold(Ref(n)) == Branch(false, [k], map[k := Leaf(v)])
  {
  }

  lemma DoneReplaced(g: Graph, resource: Node, rules: Rules, at: map<Path, Binding>)
    requires g.Falling() && resource in g.nodes && rules.Open(COMPILED_CHAIN.tag)
    requires g.nodes[resource] == Contents(false, true, [Name("done")], map[Name("done") := COMPILED_CHAIN])
    requires BindsFields(at, g, resource, DoneSite(), rules)
    ensures Substitute(g.Unfold(Ref(resource)), [], at) ==
            Branch(false, [Name("done")], map[Name("done") := Replaced(Chain("row", ["done"]))])
  {
    var done := [Name("done")];
    DonePosition(g, resource, done);
    DonePosition(g, resource, []);
    RowDone(rules);
    assert done in at && [] !in at;
    BindingExactly(COMPILED_CHAIN, rules, at[done]);
    OneUnfolded(g, resource, Name("done"), COMPILED_CHAIN);
    OneReplaced(Name("done"), Leaf(COMPILED_CHAIN), at);
  }

  /** What a controller receives for `done: !cel "row.done"`, compiled by the loader. */
  method DeliverCompiledChain(resource: Node, rules: Rules, ghost g: Graph)
    returns (delivered: Option<Node>, ghost after: Graph)
    requires g.Valid() && resource in g.nodes && g.Depicts()
    requires g.nodes[resource] == Contents(false, true, [Name("done")], map[Name("done") := COMPILED_CHAIN])
    requires rules.Open(COMPILED_CHAIN.tag)
    ensures delivered.Some? && after.Falling() && after.Depicts() && after.Holds(Ref(delivered.value))
    ensures after.Unfold(Ref(delivered.value)) ==
            Branch(false, [Name("done")], map[Name("done") := Replaced(Chain("row", ["done"]))])
  {
    ghost var at;
    delivered, after, at := Deliver(resource, DoneSite(), rules, g);
    DoneAccepted(g, resource, rules);
    DoneReplaced(g, resource, rules, at);
  }
}
