/**
 * `withAccessorBindings`: each accessor field of a resource is replaced by its binding
 * in a copy of the resource that shares everything off the way to a field.
 */
module AccessorWriter {
  import opened AccessorTree
  import opened PathText
  import opened Prelude

  datatype Replacement = Replacement(keys: Path, binding: Binding)

  predicate Begins(p: Path, q: Path) {
    p <= q
  }

  predicate NonEmpty(fields: seq<Replacement>) {
    forall i :: 0 <= i < |fields| ==> fields[i].keys != []
  }

  /** The paths to replace: none empty, none the beginning of another. */
  ghost predicate PrefixFree(fields: seq<Replacement>) {
    && NonEmpty(fields)
    && forall i, j {:trigger Begins(fields[i].keys, fields[j].keys)} ::
         0 <= i < |fields| && 0 <= j < |fields| && i != j ==> !Begins(fields[i].keys, fields[j].keys)
  }

  /** A path of containers that ends at a key there is. */
  ghost predicate Existing(g: Graph, n: Node, keys: Path)
    requires n in g.nodes
  {
    |keys| > 0 && var last := |keys| - 1;
    g.NodeAt(n, keys[..last]).Some? && keys[last] in g.nodes[g.NodeAt(n, keys[..last]).value].vals
  }

  ghost predicate AllExisting(g: Graph, n: Node, fields: seq<Replacement>)
    requires n in g.nodes
  {
    forall i {:trigger Existing(g, n, fields[i].keys)} :: 0 <= i < |fields| ==> Existing(g, n, fields[i].keys)
  }

  /** The bindings of the first `n` fields, by path. */
  function BindingsUpTo(fields: seq<Replacement>, n: nat): map<Path, Binding>
    requires n <= |fields|
  {
    if n == 0 then map[] else BindingsUpTo(fields, n - 1)[fields[n - 1].keys := fields[n - 1].binding]
  }

  function BindingsOf(fields: seq<Replacement>): map<Path, Binding> {
    BindingsUpTo(fields, |fields|)
  }

  lemma {:induction false} BindingsAt(fields: seq<Replacement>, n: nat)
    requires n <= |fields| && PrefixFree(fields)
    ensures forall p :: p in BindingsUpTo(fields, n) <==> exists i :: 0 <= i < n && fields[i].keys == p
    ensures forall i :: 0 <= i < n ==> BindingsUpTo(fields, n)[fields[i].keys] == fields[i].binding
  {
    if n > 0 {
      BindingsAt(fields, n - 1);
      forall i | 0 <= i < n - 1 ensures fields[i].keys != fields[n - 1].keys {
        assert !Begins(fields[i].keys, fields[n - 1].keys);
      }
    }
  }

  /** The order of the fields decides nothing. */
  lemma BindingsIgnoreOrder(fields: seq<Replacement>, others: seq<Replacement>)
    requires PrefixFree(fields) && PrefixFree(others)
    requires multiset(fields) == multiset(others)
    ensures BindingsOf(fields) == BindingsOf(others)
  {
    BindingsAt(fields, |fields|);
    BindingsAt(others, |others|);
    SameBindings(fields, others);
    SameBindings(others, fields);
  }

  lemma SameBindings(fields: seq<Replacement>, others: seq<Replacement>)
    requires PrefixFree(fields) && PrefixFree(others)
    requires multiset(fields) == multiset(others)
    ensures forall p :: p in BindingsOf(fields) ==>
        p in BindingsOf(others) && BindingsOf(others)[p] == BindingsOf(fields)[p]
  {
    BindingsAt(fields, |fields|);
    BindingsAt(others, |others|);
    forall p | p in BindingsOf(fields) ensures p in BindingsOf(others)
        && BindingsOf(others)[p] == BindingsOf(fields)[p] {
      var i :| 0 <= i < |fields| && fields[i].keys == p;
      assert fields[i] in multiset(others);
      var j :| 0 <= j < |others| && others[j] == fields[i];
    }
  }

  // --- The copies made on the way ------------------------------------------------------------

  /** No node is the copy of two places. */
  ghost predicate Injective(home: map<Path, Node>) {
    forall p, q :: p in home && q in home && p != q ==> home[p] != home[q]
  }

  /**
   * A write in progress: `home[p]` is the one copy of the container `orig[p]` found at
   * path `p` of `resource`, `held[p]` is what it holds, and `written` are the bindings put
   * in place so far.
   */
  datatype Way = Way(g: Graph, resource: Node, home: map<Path, Node>, orig: map<Path, Node>, held: map<Path, Contents>,
                     written: map<Path, Binding>) {

    ghost predicate Placed(p: Path)
      requires p in home && p in orig
    {
      && home[p] !in g.nodes
      && resource in g.nodes && g.NodeAt(resource, p) == Some(orig[p])
      && (|p| > 0 ==> p[..|p| - 1] in home)
    }

    /** A field is written in the copy of the container it is in, and is none itself. */
    ghost predicate Standing(f: Path) {
      f != [] && f[..|f| - 1] in home && f !in home
    }

    /** Where the copies stand: each at its own place, the container before it copied too. */
    ghost predicate Laid() {
      && home.Keys == orig.Keys && home.Keys == held.Keys
      && [] in home && orig[[]] == resource
      && Injective(home)
      && (forall p {:trigger Placed(p)} :: p in home ==> Placed(p))
      && (forall f {:trigger Standing(f)} :: f in written ==> Standing(f))
    }

    /**
     * What one key of a copy holds: the binding of a field written there, the copy of a
     * container on the way to a field, or the very value its original holds.
     */
    ghost predicate Slot(copy: map<Key, Val>, original: map<Key, Val>, p: Path, k: Key) {
      var q := p + [k];
      k in original ==>
        && k in copy
        && (if q in written then q !in home && copy[k] == Bound(written[q])
            else if q in home then q in orig && copy[k] == Ref(home[q]) && original[k] == Ref(orig[q])
            else copy[k] == original[k])
    }

    /** A copy has its original's shape, and at each key what belongs there. */
    ghost predicate Filled(copy: Contents, original: Contents, p: Path) {
      && copy.isArray == original.isArray && copy.order == original.order && copy.vals.Keys == original.vals.Keys
      && forall k {:trigger Slot(copy.vals, original.vals, p, k)} :: Slot(copy.vals, original.vals, p, k)
    }

    ghost predicate Copied(p: Path)
      requires p in held && p in orig
    {
      orig[p] in g.nodes && Filled(held[p], g.nodes[orig[p]], p)
    }

    ghost predicate Valid() {
      Laid() && forall p {:trigger Copied(p)} :: p in home ==> Copied(p)
    }

    /** The heap holds what the way says of the copies. */
    ghost predicate Shown()
      reads home.Values
    {
      forall p :: p in home && p in held ==> home[p].Get() == held[p]
    }

    /** The original graph with the copies beside it, each ranked as its original. */
    ghost predicate Extended(h: Graph) {
      && (forall n :: n in g.nodes ==>
           n in h.nodes && n in h.rank && n in g.rank && h.nodes[n] == g.nodes[n] && h.rank[n] == g.rank[n])
      && (forall p :: p in home && p in held && p in orig && orig[p] in g.rank ==>
            home[p] in h.nodes && home[p] in h.rank && h.nodes[home[p]] == held[p]
                && h.rank[home[p]] == g.rank[orig[p]])
      && (forall n :: n in h.nodes ==> n in g.nodes || n in home.Values)
      && h.nodes.Keys == h.rank.Keys
    }
  }

  ghost function PathOf(home: map<Path, Node>, n: Node): (p: Path)
    requires n in home.Values
    ensures p in home && home[p] == n
  {
    var p :| p in home && home[p] == n;
    p
  }

  /** A copy ranks as its original. */
  ghost function RankOf(w: Way, n: Node): nat
    requires n in w.home.Values
  {
    var p := PathOf(w.home, n);
    if p in w.orig && w.orig[p] in w.g.rank then w.g.rank[w.orig[p]] else 0
  }

  ghost function HeldBy(w: Way, n: Node): Contents
    requires n in w.home.Values && w.home.Keys == w.held.Keys
  {
    w.held[PathOf(w.home, n)]
  }

  ghost function After(w: Way): Graph
    requires w.home.Keys == w.held.Keys
  {
    Graph(w.g.nodes + map n | n in w.home.Values :: HeldBy(w, n), w.g.rank + map n | n in w.home.Values :: RankOf(w, n))
  }

  /** No copy is a node of the original graph. */
  lemma CopiesApart(w: Way)
    requires w.Laid()
    ensures w.home.Values !! w.g.nodes.Keys
  {
    forall n | n in w.home.Values ensures n !in w.g.nodes {
      assert w.Placed(PathOf(w.home, n));
    }
  }

  lemma AfterExtends(w: Way)
    requires w.Laid() && w.g.Falling()
    ensures w.Extended(After(w))
  {
    CopiesApart(w);
    forall p | p in w.home
      ensures w.home[p] in w.home.Values && HeldBy(w, w.home[p]) == w.held[p]
      ensures w.orig[p] in w.g.rank ==> RankOf(w, w.home[p]) == w.g.rank[w.orig[p]]
    {
      assert w.home[p] in w.home.Values;
      assert PathOf(w.home, w.home[p]) == p;
    }
  }

  lemma CopyFalls(w: Way, h: Graph, p: Path, k: Key)
    requires w.Valid() && w.g.Falling() && w.Extended(h)
    requires p in w.home && k in w.held[p].vals
    ensures w.home[p] in h.rank && h.Below(w.held[p].vals[k], h.rank[w.home[p]])
  {
    assert w.Placed(p) && w.Copied(p);
    assert w.Slot(w.held[p].vals, w.g.nodes[w.orig[p]].vals, p, k);
    assert w.g.Below(w.g.nodes[w.orig[p]].vals[k], w.g.rank[w.orig[p]]);
    if p + [k] in w.home {
      assert w.Placed(p + [k]);
    }
  }

  lemma CopiesFall(w: Way, h: Graph)
    requires w.Valid() && w.g.Falling() && w.Extended(h)
    ensures h.Falling()
  {
    forall n, k | n in h.nodes && k in h.nodes[n].vals ensures h.Below(h.nodes[n].vals[k], h.rank[n]) {
      if n in w.g.nodes {
        assert w.g.Below(w.g.nodes[n].vals[k], w.g.rank[n]);
      } else {
        var p := PathOf(w.home, n);
        assert w.Placed(p);
        CopyFalls(w, h, p, k);
      }
    }
  }

  lemma {:induction false} PrefixHome(w: Way, p: Path, q: Path)
    requires w.Laid()
    requires p in w.home && q <= p
    ensures q in w.home
    decreases |p|
  {
    if |q| < |p| {
      assert w.Placed(p);
      PrefixHome(w, p[..|p| - 1], q);
    } else {
      assert q == p;
    }
  }

  /** Off the way to every field there is nothing to replace. */
  lemma OffTheWay(w: Way, q: Path)
    requires w.Laid()
    requires q !in w.home && q !in w.written
    ensures Untouched(q, w.written)
  {
    forall f | f in w.written ensures !(q <= f) {
      if q <= f {
        assert q == f[..|q|];
        assert |q| == |f| ==> q == f;
        assert q <= f[..|f| - 1] && w.Standing(f);
        PrefixHome(w, f[..|f| - 1], q);
      }
    }
  }

  /** A value off the way is shared, and stands for the tree it did. */
  lemma SharedKid(w: Way, h: Graph, v: Val, q: Path)
    requires w.Laid() && w.g.Falling() && h.Falling() && w.g.Holds(v)
    requires forall n :: n in w.g.nodes ==> n in h.nodes && h.nodes[n] == w.g.nodes[n]
    requires q !in w.home && q !in w.written
    ensures h.Holds(v) && h.Unfold(v) == Substitute(w.g.Unfold(v), q, w.written)
  {
    OffTheWay(w, q);
    SubstituteNothing(w.g.Unfold(v), q, w.written);
    UnfoldShared(v, w.g, h);
  }

  /** One key of a copy stands for the tree of its original's, replaced beneath. */
  lemma UnfoldKid(w: Way, h: Graph, copy: map<Key, Val>, original: map<Key, Val>, p: Path, k: Key)
    requires w.Laid() && w.g.Falling() && h.Falling()
    requires forall n :: n in w.g.nodes ==> n in h.nodes && h.nodes[n] == w.g.nodes[n]
    requires k in original && w.g.Holds(original[k]) && w.Slot(copy, original, p, k)
    requires p + [k] in w.home && p + [k] in w.orig ==>
               && w.home[p + [k]] in h.nodes && w.orig[p + [k]] in w.g.nodes
               && h.Unfold(Ref(w.home[p + [k]])) == Substitute(w.g.Unfold(Ref(w.orig[p + [k]])), p + [k], w.written)
    ensures h.Holds(copy[k])
    ensures h.Unfold(copy[k]) == Substitute(w.g.Unfold(original[k]), p + [k], w.written)
  {
    if p + [k] !in w.written && p + [k] !in w.home {
      SharedKid(w, h, original[k], p + [k]);
    }
  }

  /** A node whose keys stand for replaced trees stands for the replaced tree. */
  lemma UnfoldKids(g: Graph, h: Graph, original: Node, copy: Node, p: Path, at: map<Path, Binding>)
    requires g.Falling() && h.Falling() && original in g.nodes && copy in h.nodes && p !in at
    requires h.nodes[copy].isArray == g.nodes[original].isArray && h.nodes[copy].order == g.nodes[original].order
    requires h.nodes[copy].vals.Keys == g.nodes[original].vals.Keys
    requires forall k :: k in g.nodes[original].vals ==>
               && g.Holds(g.nodes[original].vals[k]) && h.Holds(h.nodes[copy].vals[k])
               && h.Unfold(h.nodes[copy].vals[k]) == Substitute(g.Unfold(g.nodes[original].vals[k]), p + [k], at)
    ensures h.Unfold(Ref(copy)) == Substitute(g.Unfold(Ref(original)), p, at)
  {
    var kids := map k | k in h.nodes[copy].vals :: h.Unfold(h.nodes[copy].vals[k]);
    h.UnfoldBranch(copy, kids);
    SubstituteBranch(g.Unfold(Ref(original)), p, at, kids);
  }

  /** Each copy stands for its original's tree with the fields beneath it replaced. */
  lemma {:induction false} UnfoldCopy(w: Way, h: Graph, p: Path)
    requires w.Valid() && w.g.Falling() && w.Extended(h) && h.Falling()
    requires p in w.home && w.orig[p] in w.g.nodes && w.home[p] in h.nodes
    ensures h.Unfold(Ref(w.home[p])) == Substitute(w.g.Unfold(Ref(w.orig[p])), p, w.written)
    decreases w.g.rank[w.orig[p]]
  {
    var copy, original := h.nodes[w.home[p]].vals, w.g.nodes[w.orig[p]].vals;
    assert w.Copied(p);
    assert p in w.written ==> w.Standing(p);
    forall k | k in original
      ensures w.g.Holds(original[k]) && h.Holds(copy[k])
      ensures h.Unfold(copy[k]) == Substitute(w.g.Unfold(original[k]), p + [k], w.written)
    {
      assert w.Slot(copy, original, p, k);
      assert w.g.Below(original[k], w.g.rank[w.orig[p]]);
      if p + [k] in w.home && p + [k] !in w.written {
        assert w.Placed(p + [k]);
        UnfoldCopy(w, h, p + [k]);
      }
      UnfoldKid(w, h, copy, original, p, k);
    }
    UnfoldKids(w.g, h, w.orig[p], w.home[p], p, w.written);
  }

  // --- One step of the writer -------------------------------------------------------------------

  lemma SnocInjective(p: Path, k: Key, q: Path, l: Key)
    ensures p + [k] == q + [l] <==> p == q && k == l
    ensures (p + [k])[..|p|] == p
  {
    if p + [k] == q + [l] {
      assert (p + [k])[..|p|] == p && (q + [l])[..|q|] == q;
      assert (p + [k])[|p|] == k && (q + [l])[|q|] == l;
    }
  }

  lemma ValuesGrow(m: map<Path, Node>, p: Path, n: Node)
    requires p !in m
    ensures m[p := n].Values == m.Values + {n}
  {
    var next := m[p := n];
    assert p in next && next[p] == n;
    forall v | v in m.Values ensures v in next.Values {
      var q :| q in m && m[q] == v;
      assert q in next && next[q] == v;
    }
  }

  /** The way after the container at `p + [key]` was copied to `child`, if it had no copy. */
  ghost function Stepped(w: Way, p: Path, key: Key, child: Node): Way
    requires p in w.held && p in w.orig && w.orig[p] in w.g.nodes && w.g.Steps(w.orig[p], key)
  {
    var c := w.g.nodes[w.orig[p]].vals[key].node;
    if p + [key] in w.home then w
    else
      w.(home := w.home[p + [key] := child],
         orig := w.orig[p + [key] := c],
         held := w.held[p := w.held[p].(vals := w.held[p].vals[key := Ref(child)])]
                       [p + [key] := w.g.nodes[c].(plain := true)])
  }

  /** Beneath a container without a copy nothing is copied or written. */
  lemma ChildrenAfter(w: Way, q: Path)
    requires w.Laid() && q !in w.home
    ensures forall k :: q + [k] !in w.home && q + [k] !in w.written && |q + [k]| != |q|
  {
    forall k ensures q + [k] !in w.home && q + [k] !in w.written {
      assert (q + [k])[..|q + [k]| - 1] == q;
      assert q + [k] in w.written ==> w.Standing(q + [k]);
      assert q + [k] in w.home ==> w.Placed(q + [k]);
    }
  }

  lemma SteppedPlaced(w: Way, p: Path, key: Key, child: Node, p': Path)
    requires w.Laid()
    requires p in w.home && w.orig[p] in w.g.nodes && w.g.Steps(w.orig[p], key)
    requires p + [key] !in w.home && child !in w.g.nodes
    requires p' in w.home || p' == p + [key]
    ensures Stepped(w, p, key, child).Placed(p')
  {
    if p' == p + [key] {
      SnocInjective(p, key, p, key);
      assert w.Placed(p);
      w.g.NodeAtSnoc(w.resource, p, key);
    } else {
      assert w.Placed(p');
    }
  }

  lemma GrownInjective(home: map<Path, Node>, q: Path, child: Node)
    requires Injective(home)
    requires q !in home && child !in home.Values
    ensures Injective(home[q := child])
  {
    var next := home[q := child];
    forall a, b | a in next && b in next && a != b ensures next[a] != next[b] {
      assert a in home ==> home[a] in home.Values;
      assert b in home ==> home[b] in home.Values;
    }
  }

  lemma SteppedLaid(w: Way, p: Path, key: Key, child: Node)
    requires w.Laid()
    requires p in w.home && w.orig[p] in w.g.nodes && w.g.Steps(w.orig[p], key)
    requires p + [key] !in w.written && p + [key] !in w.home
    requires child !in w.g.nodes && child !in w.home.Values
    ensures Stepped(w, p, key, child).Laid()
  {
    var next := Stepped(w, p, key, child);
    GrownInjective(w.home, p + [key], child);
    assert next.home == w.home[p + [key] := child];
    forall f | f in w.written ensures next.Standing(f) {
      assert w.Standing(f);
    }
    forall p' | p' in next.home ensures next.Placed(p') {
      SteppedPlaced(w, p, key, child, p');
    }
  }

  /** A fresh copy holds what its original holds; in its parent it takes the original's place. */
  lemma SteppedCopied(w: Way, p: Path, key: Key, child: Node, p': Path)
    requires w.Valid()
    requires p in w.home && w.orig[p] in w.g.nodes && w.g.Steps(w.orig[p], key)
    requires p + [key] !in w.written && p + [key] !in w.home
    requires p' in w.home || p' == p + [key]
    ensures Stepped(w, p, key, child).Copied(p')
  {
    var next := Stepped(w, p, key, child);
    ChildrenAfter(w, p + [key]);
    assert p' in w.home ==> w.Copied(p');
    var original := w.g.nodes[next.orig[p']];
    assert p + [key] != p;
    forall k ensures next.Slot(next.held[p'].vals, original.vals, p', k) {
      SnocInjective(p', k, p, key);
      assert p' in w.home ==> w.Slot(w.held[p'].vals, original.vals, p', k);
    }
  }

  lemma SteppedValid(w: Way, p: Path, key: Key, child: Node)
    requires w.Valid()
    requires p in w.home && w.orig[p] in w.g.nodes && w.g.Steps(w.orig[p], key)
    requires p + [key] !in w.written && p + [key] !in w.home
    requires child !in w.g.nodes && child !in w.home.Values
    ensures Stepped(w, p, key, child).Valid()
    ensures Stepped(w, p, key, child).home.Values == w.home.Values + {child}
  {
    SteppedLaid(w, p, key, child);
    ValuesGrow(w.home, p + [key], child);
    forall p' | p' in Stepped(w, p, key, child).home ensures Stepped(w, p, key, child).Copied(p') {
      SteppedCopied(w, p, key, child, p');
    }
  }

  /** A container on the way is a copy, or still the original's own. */
  lemma ChildStatus(w: Way, p: Path, key: Key, copies: set<Node>)
    requires w.Valid()
    requires p in w.home && w.orig[p] in w.g.nodes && w.g.Steps(w.orig[p], key)
    requires p + [key] !in w.written
    requires copies == w.home.Values - {w.home[[]]}
    ensures key in w.held[p].vals && w.held[p].vals[key].Ref?
    ensures w.held[p].vals[key].node in copies <==> p + [key] in w.home
    ensures p + [key] in w.home ==> w.home[p + [key]] == w.held[p].vals[key].node
    ensures p + [key] !in w.home ==> w.held[p].vals[key] == w.g.nodes[w.orig[p]].vals[key]
  {
    var q := p + [key];
    assert w.Copied(p) && w.Slot(w.held[p].vals, w.g.nodes[w.orig[p]].vals, p, key);
    var c := w.held[p].vals[key].node;
    if q in w.home {
      assert c == w.home[q] && c in w.home.Values && q != [];
    } else {
      CopiesApart(w);
    }
  }

  /** The way after the field at `p + [key]` was written. */
  ghost function Written(w: Way, p: Path, key: Key, binding: Binding): Way
    requires p in w.held
  {
    w.(written := w.written[p + [key] := binding],
       held := w.held[p := w.held[p].(vals := w.held[p].vals[key := Bound(binding)])])
  }

  lemma WrittenCopied(w: Way, p: Path, key: Key, binding: Binding, p': Path)
    requires p in w.held && p' in w.held && p' in w.orig && w.Copied(p')
    requires p' == p ==> key in w.g.nodes[w.orig[p]].vals
    requires p + [key] !in w.home && p + [key] !in w.written
    ensures Written(w, p, key, binding).Copied(p')
  {
    var next := Written(w, p, key, binding);
    var original := w.g.nodes[w.orig[p']];
    forall k ensures next.Slot(next.held[p'].vals, original.vals, p', k) {
      SnocInjective(p', k, p, key);
      assert w.Slot(w.held[p'].vals, original.vals, p', k);
    }
  }

  lemma WrittenLaid(w: Way, p: Path, key: Key, binding: Binding)
    requires w.Laid()
    requires p in w.home && p + [key] !in w.home
    ensures Written(w, p, key, binding).Laid()
  {
    var next := Written(w, p, key, binding);
    assert (p + [key])[..|p + [key]| - 1] == p;
    forall f | f in next.written ensures next.Standing(f) {
      assert f != p + [key] ==> w.Standing(f);
    }
    forall p' | p' in next.home ensures next.Placed(p') {
      assert w.Placed(p');
    }
  }

  lemma WrittenValid(w: Way, p: Path, key: Key, binding: Binding)
    requires w.Valid()
    requires p in w.home && w.orig[p] in w.g.nodes && key in w.g.nodes[w.orig[p]].vals
    requires p + [key] !in w.home && p + [key] !in w.written
    ensures Written(w, p, key, binding).Valid()
  {
    WrittenLaid(w, p, key, binding);
    forall p' | p' in w.home ensures Written(w, p, key, binding).Copied(p') {
      assert w.Copied(p');
      WrittenCopied(w, p, key, binding, p');
    }
  }

  // --- The way to one field ----------------------------------------------------------------------

  /** On the way to an existing field there is a container at every step. */
  lemma {:induction false} ExistingStep(g: Graph, n: Node, keys: Path, m: nat)
    requires n in g.nodes
    requires m <= |keys| && g.NodeAt(n, keys).Some?
    ensures g.NodeAt(n, keys[..m]).Some?
    decreases |keys| - m
  {
    if m < |keys| {
      ExistingStep(g, n, keys, m + 1);
      assert keys[..m + 1] == keys[..m] + [keys[m]];
      NodeAtInit(g, n, keys[..m], keys[m]);
    } else {
      assert keys[..m] == keys;
    }
  }

  lemma {:induction false} NodeAtInit(g: Graph, n: Node, p: Path, k: Key)
    requires n in g.nodes
    requires g.NodeAt(n, p + [k]).Some?
    ensures g.NodeAt(n, p).Some?
    decreases |p|
  {
    if |p| > 0 {
      assert (p + [k])[1..] == p[1..] + [k];
      NodeAtInit(g, g.nodes[n].vals[p[0]].node, p[1..], k);
    }
  }

  /** The first `n` containers on the way along `keys`, after the resource itself. */
  ghost function Prefixes(keys: Path, n: nat): set<Path>
    requires n <= |keys|
  {
    if n == 0 then {[]} else Prefixes(keys, n - 1) + {keys[..n]}
  }

  /** Nothing on the way to `keys` was replaced, and `keys` is not on the way to anything. */
  ghost predicate Clear(w: Way, keys: Path) {
    keys !in w.home && forall n :: 0 <= n <= |keys| ==> keys[..n] !in w.written
  }

  lemma StepReady(w: Way, keys: Path, j: nat)
    requires w.Laid() && w.resource in w.g.nodes && Existing(w.g, w.resource, keys)
    requires j < |keys| && keys[..j] in w.home && Clear(w, keys)
    ensures keys[..j] + [keys[j]] == keys[..j + 1]
    ensures keys[..j] in w.orig && w.orig[keys[..j]] in w.g.nodes
    ensures keys[..j + 1] !in w.written
    ensures keys[j] in w.g.nodes[w.orig[keys[..j]]].vals
    ensures j + 1 < |keys| ==> w.g.Steps(w.orig[keys[..j]], keys[j])
    ensures j + 1 == |keys| ==> keys[..j + 1] == keys
  {
    var p := keys[..j];
    assert w.Placed(p);
    assert keys[..j + 1] == p + [keys[j]];
    if j + 1 < |keys| {
      assert keys[..|keys| - 1][..j + 1] == keys[..j + 1];
      ExistingStep(w.g, w.resource, keys[..|keys| - 1], j + 1);
      w.g.NodeAtSnoc(w.resource, p, keys[j]);
    }
  }

  /** The writer's own variables: the copy of the resource, and the other copies. */
  ghost predicate Reached(w: Way, g: Graph, resource: Node, root: Node, copied: set<Node>) {
    && w.Valid() && w.g == g && w.resource == resource && resource in g.nodes
    && w.home[[]] == root
    && copied == w.home.Values - {root}
  }

  /** What the walk to a field keeps: `holder` is the copy of the container reached so far. */
  ghost predicate Walking(w: Way, start: Way, root: Node, copied: set<Node>, keys: Path, j: nat, holder: Node)
    requires j <= |keys|
  {
    && Reached(w, start.g, start.resource, root, copied)
    && w.written == start.written
    && w.home.Keys == start.home.Keys + Prefixes(keys, j)
    && keys[..j] in w.home && holder == w.home[keys[..j]]
  }

  lemma ClearStays(start: Way, w: Way, keys: Path, j: nat)
    requires Clear(start, keys) && j < |keys|
    requires w.written == start.written && w.home.Keys == start.home.Keys + Prefixes(keys, j)
    ensures Clear(w, keys)
  {
    PrefixesShort(keys, j);
  }

  lemma {:induction false} PrefixesShort(keys: Path, j: nat)
    requires j <= |keys|
    ensures forall p :: p in Prefixes(keys, j) <==> |p| <= j && p == keys[..|p|]
  {
    if j > 0 {
      PrefixesShort(keys, j - 1);
    }
  }

  lemma WalkReady(w: Way, start: Way, root: Node, copied: set<Node>, keys: Path, j: nat, holder: Node)
    requires j < |keys| && Walking(w, start, root, copied, keys, j, holder)
    requires Existing(start.g, start.resource, keys) && Clear(start, keys)
    ensures keys[..j] + [keys[j]] == keys[..j + 1]
    ensures keys[..j] in w.orig && w.orig[keys[..j]] in w.g.nodes && keys[..j + 1] !in w.written
    ensures keys[j] in w.g.nodes[w.orig[keys[..j]]].vals
    ensures j + 1 < |keys| ==> w.g.Steps(w.orig[keys[..j]], keys[j])
    ensures j + 1 == |keys| ==> keys[..j + 1] == keys && keys !in w.home
    ensures holder in w.home.Values && holder !in start.g.nodes
  {
    ClearStays(start, w, keys, j);
    StepReady(w, keys, j);
    CopiesApart(w);
    assert holder in w.home.Values;
  }

  lemma WalkSteps(w: Way, start: Way, root: Node, copied: set<Node>, keys: Path, j: nat, holder: Node, child: Node,
          copiedNext: set<Node>)
    requires j + 1 < |keys| && Walking(w, start, root, copied, keys, j, holder)
    requires keys[..j] + [keys[j]] == keys[..j + 1]
    requires keys[..j] in w.orig && w.orig[keys[..j]] in w.g.nodes && w.g.Steps(w.orig[keys[..j]], keys[j])
    requires Stepped(w, keys[..j], keys[j], child).Valid()
    requires if keys[..j + 1] in w.home then child == w.home[keys[..j + 1]] && copiedNext == copied
             else child !in w.home.Values && copiedNext == copied + {child}
                  && Stepped(w, keys[..j], keys[j], child).home.Values == w.home.Values + {child}
    ensures Walking(Stepped(w, keys[..j], keys[j], child), start, root, copiedNext, keys, j + 1, child)
  {
    assert keys[..j + 1] != [];
    assert w.home[[]] in w.home.Values;
  }

  // --- The writer -------------------------------------------------------------------------------

  /** A container on the way that has no copy yet is copied, and the copy takes its place. */
  method FreshCopy(holder: Node, key: Key, ghost w: Way, ghost p: Path)
    returns (child: Node)
    requires w.home.Keys == w.held.Keys && Injective(w.home) && w.Shown()
    requires p in w.home && holder == w.home[p] && p in w.orig && w.orig[p] in w.g.nodes && w.g.Steps(w.orig[p], key)
    requires key in w.held[p].vals && w.held[p].vals[key] == w.g.nodes[w.orig[p]].vals[key]
    requires w.held[p].vals[key].node.Get() == w.g.nodes[w.held[p].vals[key].node]
    requires p + [key] !in w.home
    requires w.g.Depicts() && holder !in w.g.nodes
    modifies holder
    ensures fresh(child) && w.g.Depicts()
    ensures Stepped(w, p, key, child).Shown()
  {
    var c := holder.vals[key].node;
    child := new Node.Copy(c);
    holder.Assign(key, Ref(child));
    ghost var next := Stepped(w, p, key, child);
    assert |p + [key]| != |p|;
    forall p' | p' in next.home && p' in next.held ensures next.home[p'].Get() == next.held[p'] {
      if p' != p + [key] {
        assert next.home[p'] == w.home[p'] && w.home[p'] != child;
        assert p' != p ==> w.home[p'] != holder && next.held[p'] == w.held[p'];
      }
    }
  }

  /** `copy` of the source: the container at `key` of `holder`, copied unless it is a copy already. */
  method CopyChild(holder: Node, key: Key, copied: set<Node>, ghost w: Way, ghost p: Path)
    returns (child: Node, copiedNext: set<Node>)
    requires w.Valid() && w.Shown() && w.g.Depicts()
    requires p in w.home && holder == w.home[p] && w.orig[p] in w.g.nodes && w.g.Steps(w.orig[p], key)
    requires p + [key] !in w.written
    requires copied == w.home.Values - {w.home[[]]} && holder !in w.g.nodes
    modifies holder
    ensures w.g.Depicts()
    ensures Stepped(w, p, key, child).Valid() && Stepped(w, p, key, child).Shown()
    ensures p + [key] in w.home ==> child == w.home[p + [key]] && copiedNext == copied
    ensures p + [key] !in w.home ==>
              && fresh(child) && child !in w.home.Values && copiedNext == copied + {child}
              && Stepped(w, p, key, child).home.Values == w.home.Values + {child}
  {
    ChildStatus(w, p, key, copied);
    assert holder.vals == w.held[p].vals;
    var c := holder.vals[key].node;
    if c in copied {
      child, copiedNext := c, copied;
    } else {
      child := FreshCopy(holder, key, w, p);
      SteppedValid(w, p, key, child);
      copiedNext := copied + {child};
    }
  }

  /** One turn of the walk to a field. */
  method StepInto(holder: Node, keys: Path, j: nat, copied: set<Node>, root: Node, ghost w: Way, ghost start: Way)
    returns (child: Node, copiedNext: set<Node>, ghost next: Way)
    requires j + 1 < |keys| && Walking(w, start, root, copied, keys, j, holder)
    requires w.Shown() && start.g.Depicts()
    requires Existing(start.g, start.resource, keys) && Clear(start, keys)
    modifies holder
    ensures next.Shown() && start.g.Depicts()
    ensures Walking(next, start, root, copiedNext, keys, j + 1, child)
    ensures copiedNext == copied || (copiedNext == copied + {child} && fresh(child))
  {
    WalkReady(w, start, root, copied, keys, j, holder);
    child, copiedNext := CopyChild(holder, keys[j], copied, w, keys[..j]);
    next := Stepped(w, keys[..j], keys[j], child);
    WalkSteps(w, start, root, copied, keys, j, holder, child, copiedNext);
  }

  lemma WalkStarts(start: Way, root: Node, copied: set<Node>, keys: Path)
    requires Reached(start, start.g, start.resource, root, copied)
    ensures Walking(start, start, root, copied, keys, 0, root)
  {
    assert keys[..0] == [];
    assert start.home.Keys + {[]} == start.home.Keys;
  }

  lemma HolderKnown(w: Way, start: Way, root: Node, copied: set<Node>, keys: Path, j: nat, holder: Node)
    requires j <= |keys| && Walking(w, start, root, copied, keys, j, holder)
    ensures holder in copied || holder == root
  {
    assert holder in w.home.Values;
  }

  /** The containers on the way to the field at `keys`. */
  method WalkTo(root: Node, keys: Path, copied: set<Node>, ghost start: Way)
    returns (holder: Node, copiedNext: set<Node>, ghost w: Way)
    requires Reached(start, start.g, start.resource, root, copied)
    requires start.Shown() && start.g.Depicts()
    requires Existing(start.g, start.resource, keys) && Clear(start, keys)
    modifies copied, root
    ensures w.Shown() && start.g.Depicts()
    ensures Walking(w, start, root, copiedNext, keys, |keys| - 1, holder)
    ensures forall n :: n in copiedNext ==> n in copied || fresh(n)
  {
    holder, copiedNext, w := root, copied, start;
    WalkStarts(start, root, copied, keys);
    for j := 0 to |keys| - 1
      invariant w.Shown() && start.g.Depicts()
      invariant Walking(w, start, root, copiedNext, keys, j, holder)
      invariant forall n :: n in copiedNext ==> n in copied || fresh(n)
    {
      ghost var before := w;
      HolderKnown(before, start, root, copiedNext, keys, j, holder);
      holder, copiedNext, w := StepInto(holder, keys, j, copiedNext, root, before, start);
    }
  }

  /** `holder[key] = binding` */
  method WriteBinding(holder: Node, key: Key, binding: Binding, ghost w: Way, ghost p: Path)
    requires w.home.Keys == w.held.Keys && Injective(w.home)
    requires w.Shown() && w.g.Depicts()
    requires p in w.home && holder == w.home[p] && holder !in w.g.nodes && key in w.held[p].vals
    modifies holder
    ensures Written(w, p, key, binding).Shown() && w.g.Depicts()
  {
    holder.Assign(key, Bound(binding));
    ghost var next := Written(w, p, key, binding);
    forall p' | p' in next.home && p' in next.held ensures next.home[p'].Get() == next.held[p'] {
      assert p' != p ==> w.home[p'] != holder && next.held[p'] == w.held[p'];
    }
  }

  lemma LastReady(w: Way, start: Way, root: Node, copied: set<Node>, keys: Path, holder: Node)
    requires |keys| > 0 && Walking(w, start, root, copied, keys, |keys| - 1, holder)
    requires Existing(start.g, start.resource, keys) && Clear(start, keys)
    ensures keys[..|keys| - 1] + [keys[|keys| - 1]] == keys
    ensures holder == w.home[keys[..|keys| - 1]] && holder !in w.g.nodes
    ensures keys[|keys| - 1] in w.held[keys[..|keys| - 1]].vals
  {
    var last := |keys| - 1;
    WalkReady(w, start, root, copied, keys, last, holder);
    assert w.Copied(keys[..last]);
  }

  /** The end of a walk: the binding takes the field's place. */
  method WriteLast(holder: Node, keys: Path, binding: Binding, root: Node, copied: set<Node>, ghost before: Way,
          ghost start: Way)
    returns (ghost w: Way)
    requires |keys| > 0 && Walking(before, start, root, copied, keys, |keys| - 1, holder)
    requires before.Shown() && start.g.Depicts()
    requires Existing(start.g, start.resource, keys) && Clear(start, keys)
    modifies holder
    ensures w.Shown() && start.g.Depicts()
    ensures Reached(w, start.g, start.resource, root, copied)
    ensures w.written == start.written[keys := binding]
    ensures w.home.Keys == start.home.Keys + Prefixes(keys, |keys| - 1)
  {
    ghost var p := keys[..|keys| - 1];
    LastReady(before, start, root, copied, keys, holder);
    LastWritten(before, start, root, copied, keys, binding, holder);
    WriteBinding(holder, keys[|keys| - 1], binding, before, p);
    w := Written(before, p, keys[|keys| - 1], binding);
  }

  lemma LastWritten(w: Way, start: Way, root: Node, copied: set<Node>, keys: Path, binding: Binding, holder: Node)
    requires |keys| > 0 && Walking(w, start, root, copied, keys, |keys| - 1, holder)
    requires Existing(start.g, start.resource, keys) && Clear(start, keys)
    ensures keys[..|keys| - 1] in w.held
    ensures
      var next := Written(w, keys[..|keys| - 1], keys[|keys| - 1], binding);
      && Reached(next, start.g, start.resource, root, copied)
      && next.written == start.written[keys := binding] && next.home == w.home
  {
    WalkReady(w, start, root, copied, keys, |keys| - 1, holder);
    WrittenValid(w, keys[..|keys| - 1], keys[|keys| - 1], binding);
  }

  /** One field: the walk to it, and the binding written at its end. */
  method WriteField(root: Node, keys: Path, binding: Binding, copied: set<Node>, ghost start: Way)
    returns (copiedNext: set<Node>, ghost w: Way)
    requires Reached(start, start.g, start.resource, root, copied)
    requires start.Shown() && start.g.Depicts()
    requires Existing(start.g, start.resource, keys) && Clear(start, keys)
    modifies copied, root
    ensures w.Shown() && start.g.Depicts()
    ensures Reached(w, start.g, start.resource, root, copiedNext)
    ensures w.written == start.written[keys := binding]
    ensures w.home.Keys == start.home.Keys + Prefixes(keys, |keys| - 1)
    ensures forall n :: n in copiedNext ==> n in copied || fresh(n)
  {
    var holder;
    ghost var before;
    holder, copiedNext, before := WalkTo(root, keys, copied, start);
    HolderKnown(before, start, root, copiedNext, keys, |keys| - 1, holder);
    w := WriteLast(holder, keys, binding, root, copiedNext, before, start);
  }

  // --- All fields of a resource ------------------------------------------------------------------

  /** The containers on the way to the first `n` fields, and the resource. */
  ghost function WayOf(fields: seq<Replacement>, n: nat): set<Path>
    requires n <= |fields| && NonEmpty(fields)
  {
    if n == 0 then {[]} else WayOf(fields, n - 1) + Prefixes(fields[n - 1].keys, |fields[n - 1].keys| - 1)
  }

  lemma ProperPrefixes(keys: Path, p: Path)
    requires |keys| > 0
    ensures p in Prefixes(keys, |keys| - 1) <==> p < keys
  {
    PrefixesShort(keys, |keys| - 1);
    if p < keys {
      assert p == keys[..|p|];
    }
  }

  lemma {:induction false} WayOfFields(fields: seq<Replacement>, n: nat, p: Path)
    requires n <= |fields| && NonEmpty(fields)
    ensures p in WayOf(fields, n) <==> p == [] || exists i :: 0 <= i < n && p < fields[i].keys
  {
    if n > 0 {
      WayOfFields(fields, n - 1, p);
      ProperPrefixes(fields[n - 1].keys, p);
    }
  }

  lemma NotBefore(fields: seq<Replacement>, i: nat, n: nat)
    requires i < |fields| && PrefixFree(fields)
    requires n <= |fields[i].keys|
    ensures fields[i].keys[..n] !in BindingsUpTo(fields, i)
  {
    BindingsAt(fields, i);
    forall m | 0 <= m < i ensures fields[m].keys != fields[i].keys[..n] {
      assert !Begins(fields[m].keys, fields[i].keys);
    }
  }

  /** The fields before are out of the way of the next one. */
  lemma NextClear(w: Way, fields: seq<Replacement>, i: nat)
    requires i < |fields| && PrefixFree(fields)
    requires w.home.Keys == WayOf(fields, i) && w.written == BindingsUpTo(fields, i)
    ensures Clear(w, fields[i].keys)
  {
    var keys := fields[i].keys;
    WayOfFields(fields, i, keys);
    forall m | 0 <= m < i ensures !(keys < fields[m].keys) {
      assert !Begins(fields[i].keys, fields[m].keys);
    }
    forall n | 0 <= n <= |keys| ensures keys[..n] !in w.written {
      NotBefore(fields, i, n);
    }
  }

  /** The first `i` fields are written, and nothing else. */
  ghost predicate WrittenUpTo(w: Way, start: Way, root: Node, copied: set<Node>, fields: seq<Replacement>, i: nat)
    requires i <= |fields| && NonEmpty(fields)
  {
    && Reached(w, start.g, start.resource, root, copied)
    && w.written == BindingsUpTo(fields, i) && w.home.Keys == WayOf(fields, i)
  }

  /** The loop over the fields. */
  method WriteFields(root: Node, fields: seq<Replacement>, copied: set<Node>, ghost start: Way)
    returns (copiedNext: set<Node>, ghost w: Way)
    requires PrefixFree(fields)
    requires WrittenUpTo(start, start, root, copied, fields, 0)
    requires start.Shown() && start.g.Depicts()
    requires AllExisting(start.g, start.resource, fields)
    modifies copied, root
    ensures w.Shown() && start.g.Depicts()
    ensures WrittenUpTo(w, start, root, copiedNext, fields, |fields|)
    ensures forall n :: n in copiedNext ==> n in copied || fresh(n)
  {
    copiedNext, w := copied, start;
    for i := 0 to |fields|
      invariant w.Shown() && start.g.Depicts()
      invariant WrittenUpTo(w, start, root, copiedNext, fields, i)
      invariant forall n :: n in copiedNext ==> n in copied || fresh(n)
    {
      ghost var before := w;
      copiedNext, w := WriteNext(root, fields, i, copiedNext, before, start);
    }
  }

  method WriteNext(root: Node, fields: seq<Replacement>, i: nat, copied: set<Node>, ghost before: Way, ghost start: Way)
    returns (copiedNext: set<Node>, ghost w: Way)
    requires i < |fields| && PrefixFree(fields)
    requires WrittenUpTo(before, start, root, copied, fields, i)
    requires before.Shown() && start.g.Depicts()
    requires Existing(start.g, start.resource, fields[i].keys)
    modifies copied, root
    ensures w.Shown() && start.g.Depicts()
    ensures WrittenUpTo(w, start, root, copiedNext, fields, i + 1)
    ensures forall n :: n in copiedNext ==> n in copied || fresh(n)
  {
    NextClear(before, fields, i);
    copiedNext, w := WriteField(root, fields[i].keys, fields[i].binding, copied, before);
  }

  /**
   * The result of a write with some field: each container on the way to a field, and no
   * other, is copied once for the place it is found at, and the copy of the resource
   * stands for the resource with exactly its fields replaced.
   */
  ghost predicate Delivered(w: Way, g: Graph, resource: Node, root: Node, fields: seq<Replacement>)
    requires g.Falling() && resource in g.nodes
  {
    && w.Valid() && w.g == g && w.resource == resource && w.written == BindingsOf(fields)
    && [] in w.home && w.home[[]] == root
    && (forall p :: p in w.home <==> exists i :: 0 <= i < |fields| && p < fields[i].keys)
    && After(w).Falling()
    && After(w).Holds(Ref(root))
    && After(w).Unfold(Ref(root)) == Substitute(g.Unfold(Ref(resource)), [], BindingsOf(fields))
  }

  lemma StartReached(w: Way, root: Node)
    requires w.home == map[[] := root] && w.orig == map[[] := w.resource] && w.written == map[]
    requires w.resource in w.g.nodes && root !in w.g.nodes
    requires w.held == map[[] := w.g.nodes[w.resource].(plain := true)]
    ensures Reached(w, w.g, w.resource, root, {})
  {
    assert w.Placed([]);
    var original := w.g.nodes[w.resource];
    forall k ensures w.Slot(original.vals, original.vals, [], k) {
      assert [] + [k] != [];
    }
    assert w.Copied([]);
    assert w.home.Values == {root};
  }

  lemma Finished(w: Way, fields: seq<Replacement>, root: Node)
    requires w.Valid() && w.g.Falling() && w.resource in w.g.nodes && |fields| > 0 && PrefixFree(fields)
    requires w.written == BindingsOf(fields) && w.home.Keys == WayOf(fields, |fields|) && w.home[[]] == root
    ensures Delivered(w, w.g, w.resource, root, fields)
    ensures w.Shown() && w.g.Depicts() ==> After(w).Depicts()
  {
    assert [] < fields[0].keys;
    forall p ensures p in w.home <==> exists i :: 0 <= i < |fields| && p < fields[i].keys {
      WayOfFields(fields, |fields|, p);
    }
    AfterExtends(w);
    CopiesFall(w, After(w));
    assert w.Placed([]);
    UnfoldCopy(w, After(w), []);
    if w.Shown() && w.g.Depicts() {
      AfterDepicts(w);
    }
  }

  /** The heap after a write holds the original graph and the copies. */
  lemma AfterDepicts(w: Way)
    requires w.Laid() && w.g.Falling() && w.Shown() && w.g.Depicts()
    ensures After(w).Depicts()
  {
    AfterExtends(w);
    forall n | n in After(w).nodes ensures n.Get() == After(w).nodes[n] {
      if n !in w.g.nodes {
        assert w.home[PathOf(w.home, n)] == n;
      }
    }
  }

  lemma RootAmong(home: map<Path, Node>, copied: set<Node>, root: Node)
    requires [] in home && home[[]] == root && copied == home.Values - {root}
    ensures home.Values == copied + {root}
  {
    assert home[[]] in home.Values;
  }

  /** Every field, with no container copied yet but the resource. */
  method WriteAll(root: Node, fields: seq<Replacement>, ghost start: Way)
    returns (copied: set<Node>, ghost w: Way)
    requires PrefixFree(fields) && |fields| > 0
    requires WrittenUpTo(start, start, root, {}, fields, 0)
    requires start.Shown() && start.g.Falling() && start.g.Depicts()
    requires AllExisting(start.g, start.resource, fields)
    modifies root
    ensures start.g.Depicts()
    ensures Delivered(w, start.g, start.resource, root, fields) && After(w).Depicts()
    ensures w.home.Values == copied + {root}
    ensures forall n :: n in copied ==> fresh(n)
  {
    copied, w := WriteFields(root, fields, {}, start);
    Finished(w, fields, root);
    RootAmong(w.home, copied, root);
  }

  /**
   * `resource` with each field replaced by its binding. Nothing of the input changes, and
   * with no field it is returned itself.
   */
  method WithAccessorBindings(resource: Node, fields: seq<Replacement>, ghost g: Graph)
    returns (root: Node, ghost w: Way)
    requires g.Falling() && g.Depicts() && resource in g.nodes
    requires PrefixFree(fields)
    requires AllExisting(g, resource, fields)
    ensures g.Depicts()
    ensures fields == [] ==> root == resource
    ensures fields != [] ==> Delivered(w, g, resource, root, fields) && After(w).Depicts()
    ensures fields != [] ==> fresh(w.home.Values)
  {
    if |fields| == 0 {
      root := resource;
      w := Way(g, resource, map[], map[], map[], map[]);
      return;
    }
    root := new Node.Copy(resource);
    ghost var start := Way(g, resource, map[[] := root], map[[] := resource],
            map[[] := g.nodes[resource].(plain := true)], map[]);
    StartReached(start, root);
    var copied;
    copied, w := WriteAll(root, fields, start);
  }
}
