/**
 * `conjunctsOf`: the schemas a value must satisfy together, gathered by a walk that meets
 * each schema once, on `allOf` graphs that may share and cycle.
 */
module CelConjuncts {
  import opened CelSlots

  /** The conjuncts of a known schema are known. */
  ghost predicate Known(r: Reader) {
    forall n: Node, m: Node {:trigger m in r.allOf(n)} :: n.schema in r.schemas && m in r.allOf(n) ==>
        m.schema in r.schemas
  }

  ghost function SchemasOf(nodes: seq<Node>): set<nat> {
    set n | n in nodes :: n.schema
  }

  ghost predicate Distinct(nodes: seq<Node>) {
    forall i, j :: 0 <= i < j < |nodes| ==> nodes[i].schema != nodes[j].schema
  }

  /** A chain of conjuncts from one node to another. */
  ghost predicate Chain(r: Reader, t: seq<Node>, from: Node, to: Node)
    decreases |t|
  {
    if |t| == 0 then from == to else t[0] in r.allOf(from) && Chain(r, t[1..], t[0], to)
  }

  ghost predicate Beneath(r: Reader, from: Node, to: Node) {
    exists t :: Chain(r, t, from, to)
  }

  ghost predicate BeneathAny(r: Reader, members: seq<Node>, n: Node) {
    exists i :: 0 <= i < |members| && Beneath(r, members[i], n)
  }

  /** All conjuncts of a node are of schemas already met. */
  ghost predicate Complete(r: Reader, n: Node, met: set<nat>) {
    forall m :: m in r.allOf(n) ==> m.schema in met
  }

  /** What a walk of `members` gathered, `seen` having been met before. */
  ghost predicate Gathered(r: Reader, members: seq<Node>, seen: set<nat>, out: seq<Node>, met: set<nat>) {
    && met == seen + SchemasOf(out)
    && Distinct(out) && SchemasOf(out) !! seen
    && (forall n :: n in out ==> Complete(r, n, met) && BeneathAny(r, members, n))
    && forall n :: n in members ==> n.schema in met
  }

  lemma BeneathMember(r: Reader, node: Node, n: Node)
    requires BeneathAny(r, r.allOf(node), n)
    ensures Beneath(r, node, n)
  {
    var i :| 0 <= i < |r.allOf(node)| && Beneath(r, r.allOf(node)[i], n);
    var t :| Chain(r, t, r.allOf(node)[i], n);
    assert Chain(r, [r.allOf(node)[i]] + t, node, n);
  }

  lemma SchemasJoin(a: seq<Node>, b: seq<Node>)
    ensures SchemasOf(a + b) == SchemasOf(a) + SchemasOf(b)
  {
    assert forall n :: n in a + b <==> n in a || n in b;
  }

  lemma DistinctJoin(a: seq<Node>, b: seq<Node>)
    requires Distinct(a) && Distinct(b) && SchemasOf(a) !! SchemasOf(b)
    ensures Distinct(a + b)
  {
    var all := a + b;
    forall i, j | 0 <= i < j < |all| ensures all[i].schema != all[j].schema {
      if i < |a| && |a| <= j {
        assert all[i] in a && all[j] in b;
        assert all[i].schema in SchemasOf(a) && all[j].schema in SchemasOf(b);
      }
    }
  }

  lemma {:induction false} Gathers(r: Reader, node: Node, seen: set<nat>)
    requires Known(r) && node.schema in r.schemas
    ensures var result := ConjunctsFrom(r, node, seen); Gathered(r, [node], seen, result.0, result.1)
    ensures node.schema !in seen ==> |ConjunctsFrom(r, node, seen).0| > 0 && ConjunctsFrom(r, node, seen).0[0] == node
    decreases r.schemas - seen, 1, 0
  {
    if node.schema !in seen {
      var within := MembersFrom(r, r.allOf(node), seen + {node.schema});
      MembersGather(r, r.allOf(node), seen + {node.schema});
      GathersNode(r, node, seen, within.0, within.1);
    }
  }

  lemma GathersNode(r: Reader, node: Node, seen: set<nat>, out: seq<Node>, met: set<nat>)
    requires node.schema !in seen && Gathered(r, r.allOf(node), seen + {node.schema}, out, met)
    ensures Gathered(r, [node], seen, [node] + out, met)
  {
    SchemasJoin([node], out);
    assert SchemasOf([node]) == {node.schema};
    DistinctJoin([node], out);
    assert Chain(r, [], node, node) && Beneath(r, [node][0], node);
    forall n | n in [node] + out ensures Complete(r, n, met) && BeneathAny(r, [node], n) {
      if n in out {
        BeneathMember(r, node, n);
        assert Beneath(r, [node][0], n);
      } else {
        assert n == node;
      }
    }
  }

  lemma {:induction false} MembersGather(r: Reader, members: seq<Node>, seen: set<nat>)
    requires Known(r) && forall m :: m in members ==> m.schema in r.schemas
    ensures var result := MembersFrom(r, members, seen); Gathered(r, members, seen, result.0, result.1)
    decreases r.schemas - seen, 2, |members|
  {
    if |members| > 0 {
      var first := ConjunctsFrom(r, members[0], seen);
      var rest := MembersFrom(r, members[1..], first.1);
      Gathers(r, members[0], seen);
      MembersGather(r, members[1..], first.1);
      GathersNext(r, members, seen, first.0, first.1, rest.0, rest.1);
    }
  }

  lemma GathersNext(r: Reader, members: seq<Node>, seen: set<nat>, a: seq<Node>, mid: set<nat>, b: seq<Node>,
          met: set<nat>)
    requires |members| > 0
    requires Gathered(r, [members[0]], seen, a, mid) && Gathered(r, members[1..], mid, b, met)
    ensures Gathered(r, members, seen, a + b, met)
  {
    SchemasJoin(a, b);
    DistinctJoin(a, b);
    forall n | n in a + b ensures Complete(r, n, met) && BeneathAny(r, members, n) {
      if n in a {
        assert Complete(r, n, mid) && BeneathAny(r, [members[0]], n);
        assert Beneath(r, members[0], n);
      } else {
        assert n in b && BeneathAny(r, members[1..], n);
        var i :| 0 <= i < |members[1..]| && Beneath(r, members[1..][i], n);
        assert members[i + 1] == members[1..][i];
      }
    }
    forall n | n in members ensures n.schema in met {
      assert n == members[0] || n in members[1..];
      assert n == members[0] ==> n in [members[0]];
    }
  }

  /**
   * The conjuncts of a node: itself first, nothing but what `allOf` leads to, each schema once,
   * and for each of them all of its own conjuncts.
   */
  lemma ConjunctsExactly(r: Reader, node: Node)
    requires Known(r) && node.schema in r.schemas
    ensures |ConjunctsOf(r, node)| > 0 && ConjunctsOf(r, node)[0] == node
    ensures Distinct(ConjunctsOf(r, node))
    ensures forall n :: n in ConjunctsOf(r, node) ==> Beneath(r, node, n)
    ensures forall n, m :: n in ConjunctsOf(r, node) && m in r.allOf(n) ==> m.schema in SchemasOf(ConjunctsOf(r, node))
  {
    Gathers(r, node, {});
    var out := ConjunctsOf(r, node);
    forall n | n in out ensures Beneath(r, node, n) && Complete(r, n, SchemasOf(out)) {
      assert BeneathAny(r, [node], n);
    }
  }
}
