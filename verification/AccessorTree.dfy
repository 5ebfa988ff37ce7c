/**
 * The object graphs accessor fields are written in and replaced in: JavaScript arrays
 * and plain objects on the heap, sharing allowed, without cycles; and the trees they
 * stand for. What is proved about a graph is proved about a picture of it, a value that
 * gives the contents of each node.
 */
module AccessorTree {
  import opened PathText
  import opened Prelude

  /**
   * The marks of a tag: a sentinel's, both the sentinel's and a compiled value's (what the
   * loader puts in a sentinel's place), or a compiled value's alone.
   */
  datatype Marks = Sentinel | CompiledSentinel | CompiledOnly

  datatype Tag = Tag(engine: string, source: string, marks: Marks)

  datatype Binding = Chain(root: string, path: seq<string>) | Literal(value: Val)

  datatype Val =
    | Undefined
    | Scalar(text: string)
    | Tagged(tag: Tag)
    | Ref(node: Node)
    | Bound(binding: Binding)

  /** The contents of an array or an object; `plain` tells a plain object from an instance. */
  datatype Contents = Contents(isArray: bool, plain: bool, order: seq<Key>, vals: map<Key, Val>)

  class Node {
    const isArray: bool
    const plain: bool
    var order: seq<Key>
    var vals: map<Key, Val>

    function Get(): Contents
      reads this
    {
      Contents(isArray, plain, order, vals)
    }

    /** `[...source]` or `{ ...source }`. */
    constructor Copy(source: Node)
      ensures Get() == source.Get().(plain := true)
    {
      isArray, plain := source.isArray, true;
      order, vals := source.order, source.vals;
    }

    /** `this[key] = value` */
    method Assign(key: Key, value: Val)
      modifies this
      ensures vals == old(vals)[key := value]
      ensures order == if key in old(vals) then old(order) else old(order) + [key]
    {
      if key !in vals {
        order := order + [key];
      }
      vals := vals[key := value];
    }
  }

  /** A picture of a graph: the contents of its nodes, and a rank falling along every edge. */
  datatype Graph = Graph(nodes: map<Node, Contents>, rank: map<Node, nat>) {

    ghost predicate Depicts()
      reads nodes.Keys
    {
      forall n :: n in nodes ==> n.Get() == nodes[n]
    }

    /** Every child is a node of lower rank, so no node is beneath itself. */
    ghost predicate Falling() {
      && rank.Keys == nodes.Keys
      && forall n, k :: n in nodes && k in nodes[n].vals ==> Below(nodes[n].vals[k], rank[n])
    }

    ghost predicate Below(v: Val, limit: nat) {
      v.Ref? ==> v.node in nodes && v.node in rank && rank[v.node] < limit
    }

    ghost predicate Holds(v: Val) {
      v.Ref? ==> v.node in nodes
    }

    ghost function Height(v: Val): nat {
      if v.Ref? && v.node in rank then rank[v.node] + 1 else 0
    }

    /** A node lists each of its keys once; an array's are indexes and an object's are names. */
    ghost predicate Sound(n: Node)
      requires n in nodes
    {
      && (forall k :: k in nodes[n].vals <==> k in nodes[n].order)
      && (forall i, j :: 0 <= i < j < |nodes[n].order| ==> nodes[n].order[i] != nodes[n].order[j])
      && (forall k :: k in nodes[n].vals ==> (nodes[n].isArray <==> k.Index?))
      && (forall k :: k in nodes[n].vals ==> !nodes[n].vals[k].Bound?)
    }

    ghost predicate Valid() {
      Falling() && forall n :: n in nodes ==> Sound(n)
    }

    /** What a walk enters: an array or a plain object, never a tag. */
    ghost predicate Enterable(v: Val)
      requires Holds(v)
    {
      v.Ref? && (nodes[v.node].isArray || nodes[v.node].plain)
    }

    /** The value at the end of a path of such containers. */
    ghost function At(v: Val, keys: Path): (r: Option<Val>)
      requires Holds(v)
      ensures r.Some? ==> Holds(r.value)
      decreases |keys|
    {
      if |keys| == 0 then Some(v)
      else if Enterable(v) && keys[0] in nodes[v.node].vals && Holds(nodes[v.node].vals[keys[0]]) then
        At(nodes[v.node].vals[keys[0]], keys[1..])
      else None
    }

    /** A node holds another one at `k`. */
    ghost predicate Steps(n: Node, k: Key)
      requires n in nodes
    {
      k in nodes[n].vals && nodes[n].vals[k].Ref? && nodes[n].vals[k].node in nodes
    }

    /** The container at the end of a path. */
    ghost function NodeAt(n: Node, keys: Path): (r: Option<Node>)
      requires n in nodes
      ensures r.Some? ==> r.value in nodes
      decreases |keys|
    {
      if |keys| == 0 then Some(n)
      else if Steps(n, keys[0]) then NodeAt(nodes[n].vals[keys[0]].node, keys[1..])
      else None
    }

    /** What a value is, whatever nodes it is shared through. */
    ghost function Unfold(v: Val): Tree
      requires Falling() && Holds(v)
      decreases Height(v)
    {
      match v
      case Bound(b) => Replaced(b)
      case Ref(n) => Branch(nodes[n].isArray, nodes[n].order, map k | k in nodes[n].vals :: Unfold(nodes[n].vals[k]))
      case _ => Leaf(v)
    }

    lemma UnfoldBranch(n: Node, kids: map<Key, Tree>)
      requires Falling() && n in nodes
      requires kids.Keys == nodes[n].vals.Keys
      requires forall k :: k in nodes[n].vals ==> kids[k] == Unfold(nodes[n].vals[k])
      ensures Unfold(Ref(n)) == Branch(nodes[n].isArray, nodes[n].order, kids)
    {
      assert Unfold(Ref(n)).kids == kids;
    }

    lemma {:induction false} NodeAtSnoc(n: Node, p: Path, k: Key)
      requires n in nodes
      requires NodeAt(n, p).Some?
      ensures
        var m := NodeAt(n, p).value;
        NodeAt(n, p + [k]) == if Steps(m, k) then Some(nodes[m].vals[k].node) else None
      decreases |p|
    {
      if |p| > 0 {
        assert (p + [k])[1..] == p[1..] + [k];
        NodeAtSnoc(nodes[n].vals[p[0]].node, p[1..], k);
      } else {
        assert (p + [k])[1..] == [];
      }
    }
  }

  // --- The tree a value stands for ---------------------------------------------------------

  datatype Tree =
    | Leaf(v: Val)
    | Branch(isArray: bool, order: seq<Key>, kids: map<Key, Tree>)
    | Replaced(binding: Binding)

  /** A tree with the places of `at` replaced by their bindings; `here` is where it stands. */
  ghost function Substitute(t: Tree, here: Path, at: map<Path, Binding>): Tree
    decreases t
  {
    if here in at then Replaced(at[here])
    else
      match t
      case Branch(isArray, order, kids) =>
        Branch(isArray, order, map k | k in kids :: Substitute(kids[k], here + [k], at))
      case _ => t
  }

  /** Nothing is replaced at or beneath `here`. */
  ghost predicate Untouched(here: Path, at: map<Path, Binding>) {
    forall p :: p in at ==> !(here <= p)
  }

  lemma SubstituteBranch(t: Tree, here: Path, at: map<Path, Binding>, kids: map<Key, Tree>)
    requires t.Branch? && here !in at
    requires kids.Keys == t.kids.Keys
    requires forall k :: k in t.kids ==> kids[k] == Substitute(t.kids[k], here + [k], at)
    ensures Substitute(t, here, at) == Branch(t.isArray, t.order, kids)
  {
    assert Substitute(t, here, at).kids == kids;
  }

  lemma {:induction false} SubstituteNothing(t: Tree, here: Path, at: map<Path, Binding>)
    requires Untouched(here, at)
    ensures Substitute(t, here, at) == t
    decreases t
  {
    assert here <= here;
    if t.Branch? {
      forall k | k in t.kids ensures Substitute(t.kids[k], here + [k], at) == t.kids[k] {
        assert forall p :: p in at && here + [k] <= p ==> here <= p;
        SubstituteNothing(t.kids[k], here + [k], at);
      }
      SubstituteBranch(t, here, at, t.kids);
    }
  }

  /** A value stands for the same tree in a graph that only adds nodes. */
  lemma {:induction false} UnfoldShared(v: Val, g: Graph, h: Graph)
    requires g.Falling() && h.Falling() && g.Holds(v)
    requires forall n :: n in g.nodes ==> n in h.nodes && h.nodes[n] == g.nodes[n]
    ensures h.Holds(v) && h.Unfold(v) == g.Unfold(v)
    decreases g.Height(v)
  {
    if v.Ref? {
      var n := v.node;
      var kids := map k | k in g.nodes[n].vals :: g.Unfold(g.nodes[n].vals[k]);
      forall k | k in h.nodes[n].vals ensures kids[k] == h.Unfold(h.nodes[n].vals[k]) {
        UnfoldShared(g.nodes[n].vals[k], g, h);
      }
      h.UnfoldBranch(n, kids);
    }
  }
}
