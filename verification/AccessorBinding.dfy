/**
 * What an accessor field may hold, and what a controller receives for it: one plain
 * chain rooted at a binding of the field, or a literal without unresolved tags.
 */
module AccessorBinding {
  import opened AccessorTree
  import opened PathText
  import opened Prelude

  // --- Plain chains ---------------------------------------------------------------------------

  predicate StartsName(c: char) { 'A' <= c <= 'Z' || 'a' <= c <= 'z' || c == '_' }

  predicate ContinuesName(c: char) { StartsName(c) || '0' <= c <= '9' }

  /** `[A-Za-z_][A-Za-z0-9_]*(\.[A-Za-z_][A-Za-z0-9_]*)*`, as a matcher of the whole text. */
  predicate IsChain(s: string)
    decreases |s|
  {
    |s| > 0 && StartsName(s[0]) && ChainGoesOn(s[1..])
  }

  predicate ChainGoesOn(s: string)
    decreases |s|
  {
    || |s| == 0
    || (ContinuesName(s[0]) && ChainGoesOn(s[1..]))
    || (s[0] == '.' && IsChain(s[1..]))
  }

  predicate Continues(s: string) {
    forall i :: 0 <= i < |s| ==> ContinuesName(s[i])
  }

  /** Letters, digits and `_`, the first no digit. */
  predicate IsIdentifier(s: string) {
    && |s| > 0
    && forall i :: 0 <= i < |s| ==>
         'a' <= s[i] <= 'z' || 'A' <= s[i] <= 'Z' || s[i] == '_' || (i > 0 && '0' <= s[i] <= '9')
  }

  lemma IdentifierFirst(s: string)
    ensures IsIdentifier(s) <==> |s| > 0 && StartsName(s[0]) && Continues(s[1..])
  {
    if |s| > 0 {
      assert forall i :: 0 < i < |s| ==> s[i] == s[1..][i - 1];
      if StartsName(s[0]) && Continues(s[1..]) {
        forall i | 0 < i < |s| ensures ContinuesName(s[i]) {
          assert ContinuesName(s[1..][i - 1]);
        }
      }
    }
  }

  predicate AllIdentifiers(parts: seq<string>) {
    forall i :: 0 <= i < |parts| ==> IsIdentifier(parts[i])
  }

  lemma ContinuesCons(c: char, s: string)
    ensures Continues([c] + s) <==> ContinuesName(c) && Continues(s)
  {
    if Continues([c] + s) {
      assert ([c] + s)[0] == c;
      forall i | 0 <= i < |s| ensures ContinuesName(s[i]) {
        assert ([c] + s)[i + 1] == s[i];
      }
    }
  }

  lemma {:induction false} ChainTailParts(s: string)
    ensures ChainGoesOn(s) <==> Continues(Split(s, '.')[0]) && AllIdentifiers(Split(s, '.')[1..])
    decreases |s|, 0
  {
    if |s| > 0 {
      var rest := Split(s[1..], '.');
      if s[0] == '.' {
        ChainParts(s[1..]);
        assert Split(s, '.')[1..] == rest;
      } else {
        ChainTailParts(s[1..]);
        assert Split(s, '.')[0] == [s[0]] + rest[0] && Split(s, '.')[1..] == rest[1..];
        ContinuesCons(s[0], rest[0]);
      }
    }
  }

  /** The pattern accepts exactly the identifiers joined by dots. */
  lemma {:induction false} ChainParts(s: string)
    ensures IsChain(s) <==> AllIdentifiers(Split(s, '.'))
    decreases |s|, 1
  {
    var parts := Split(s, '.');
    if |s| > 0 && s[0] != '.' {
      var rest := Split(s[1..], '.');
      ChainTailParts(s[1..]);
      assert parts[0] == [s[0]] + rest[0] && parts[1..] == rest[1..];
      assert parts[0][1..] == rest[0];
      IdentifierFirst(parts[0]);
      assert AllIdentifiers(parts) <==> IsIdentifier(parts[0]) && AllIdentifiers(parts[1..]) by {
        assert parts == [parts[0]] + parts[1..];
      }
    } else {
      assert parts[0] == "";
    }
  }

  const CEL := "cel"

  /** The dotted chain a `!cel` sentinel names, compiled or not. */
  function PlainChainOf(v: Val): Option<string> {
    if v.Tagged? && !v.tag.marks.CompiledOnly? && v.tag.engine == CEL && IsChain(Trim(v.tag.source))
    then Some(Trim(v.tag.source))
    else None
  }

  /**
   * A `!cel` tag, as the author wrote it or as the loader compiled it, whose text is these
   * identifiers joined by dots.
   */
  ghost predicate WritesChain(v: Val, parts: seq<string>) {
    && v.Tagged? && (v.tag.marks == Sentinel || v.tag.marks == CompiledSentinel) && v.tag.engine == "cel"
    && |parts| > 0 && AllIdentifiers(parts) && Join(parts, '.') == Trim(v.tag.source)
  }

  lemma IdentifiersSplit(parts: seq<string>)
    requires |parts| > 0 && AllIdentifiers(parts)
    ensures Split(Join(parts, '.'), '.') == parts && IsChain(Join(parts, '.'))
  {
    forall p | p in parts ensures '.' !in p {
      var i :| 0 <= i < |parts| && parts[i] == p;
      assert IsIdentifier(parts[i]);
    }
    SplitJoined(parts, '.');
    ChainParts(Join(parts, '.'));
  }

  /** A value names a chain exactly when it writes identifiers, and the chain is what it writes. */
  lemma ChainExactly(v: Val)
    ensures PlainChainOf(v).Some? <==> exists parts :: WritesChain(v, parts)
    ensures forall parts :: WritesChain(v, parts) ==>
              PlainChainOf(v) == Some(Join(parts, '.')) && Split(PlainChainOf(v).value, '.') == parts
  {
    if PlainChainOf(v).Some? {
      var chain := PlainChainOf(v).value;
      ChainParts(chain);
      JoinSplit(chain, '.');
      assert WritesChain(v, Split(chain, '.'));
    }
    forall parts | WritesChain(v, parts)
      ensures PlainChainOf(v) == Some(Join(parts, '.')) && Split(PlainChainOf(v).value, '.') == parts
    {
      IdentifiersSplit(parts);
    }
  }

  // --- What an accessor field cannot hold --------------------------------------------------------

  /** What the engines and the host say of a tag. */
  datatype Rules = Rules(literal: Tag -> bool, resolvedEarlier: Tag -> bool) {

    predicate Resolved(t: Tag) {
      (t.marks.Sentinel? && literal(t)) || resolvedEarlier(t)
    }

    /** Nothing has replaced the tag: no engine reads it as a literal, and the host does not know its value. */
    predicate Open(t: Tag) {
      !(t.marks == Sentinel && literal(t)) && !resolvedEarlier(t)
    }

    /** The engine of `!cel` runs expressions, so its tags are never literals. */
    ghost predicate CelRuns() {
      forall t: Tag {:trigger literal(t)} :: t.engine == CEL ==> !literal(t)
    }
  }

  datatype Problem =
    | NotAChain(path: string, tag: Tag)
    | UnboundRoot(path: string, root: string)
    | NestedTag(path: string, tag: Tag)

  /** The unresolved tags beneath a value, by the texts of their paths. */
  ghost function TagsIn(g: Graph, v: Val, at: string, rules: Rules): seq<Problem>
    requires g.Falling() && g.Holds(v)
    decreases g.Height(v), 1, 0
  {
    if v.Tagged? then if rules.Resolved(v.tag) then [] else [NestedTag(at, v.tag)]
    else if g.Enterable(v) then TagsBelow(g, v.node, at, rules, |g.nodes[v.node].order|)
    else []
  }

  ghost function TagsBelow(g: Graph, n: Node, at: string, rules: Rules, i: nat): seq<Problem>
    requires g.Falling() && n in g.nodes && i <= |g.nodes[n].order|
    decreases g.Height(Ref(n)), 0, i
  {
    if i == 0 then []
    else
      var k := g.nodes[n].order[i - 1];
      TagsBelow(g, n, at, rules, i - 1)
      + if k in g.nodes[n].vals then TagsIn(g, g.nodes[n].vals[k], Under(at, k), rules) else []
  }

  /** An unresolved tag stands at the end of `rest`. */
  ghost predicate Unresolved(g: Graph, v: Val, rest: Path, rules: Rules)
    requires g.Holds(v)
  {
    g.At(v, rest).Some? && g.At(v, rest).value.Tagged? && rules.Open(g.At(v, rest).value.tag)
  }

  /** A problem found beneath a value is an unresolved tag there, at its path. */
  ghost predicate Found(g: Graph, v: Val, at: string, rules: Rules, rest: Path, p: Problem)
    requires g.Holds(v)
  {
    Unresolved(g, v, rest, rules) && p == NestedTag(TextUnder(at, rest), g.At(v, rest).value.tag)
  }

  /** The child at a key is in the graph, beneath its container. */
  lemma ChildHeld(g: Graph, n: Node, k: Key)
    requires g.Falling() && n in g.nodes && k in g.nodes[n].vals
    ensures g.Holds(g.nodes[n].vals[k]) && g.Height(g.nodes[n].vals[k]) < g.Height(Ref(n))
  {
    assert g.Below(g.nodes[n].vals[k], g.rank[n]);
  }

  /** A path into a container starts at one of its keys. */
  lemma FoundStep(g: Graph, n: Node, at: string, rules: Rules, k: Key, rest: Path, p: Problem)
    requires g.Falling() && n in g.nodes && k in g.nodes[n].vals && g.Enterable(Ref(n))
    requires g.Holds(g.nodes[n].vals[k])
    ensures Found(g, Ref(n), at, rules, [k] + rest, p) <==> Found(g, g.nodes[n].vals[k], Under(at, k), rules, rest, p)
  {
    assert ([k] + rest)[1..] == rest;
  }

  lemma {:induction false} BelowFrom(g: Graph, n: Node, at: string, rules: Rules, i: nat, p: Problem) returns (k: Key)
    requires g.Falling() && n in g.nodes && i <= |g.nodes[n].order|
    requires p in TagsBelow(g, n, at, rules, i)
    ensures k in g.nodes[n].vals && g.Holds(g.nodes[n].vals[k])
        && p in TagsIn(g, g.nodes[n].vals[k], Under(at, k), rules)
  {
    k := g.nodes[n].order[i - 1];
    if p in TagsBelow(g, n, at, rules, i - 1) {
      k := BelowFrom(g, n, at, rules, i - 1, p);
    } else {
      ChildHeld(g, n, k);
    }
  }

  lemma {:induction false} BelowHas(g: Graph, n: Node, at: string, rules: Rules, i: nat, j: nat, p: Problem)
    requires g.Falling() && n in g.nodes && j < i <= |g.nodes[n].order|
    requires var k := g.nodes[n].order[j];
             k in g.nodes[n].vals && g.Holds(g.nodes[n].vals[k])
                 && p in TagsIn(g, g.nodes[n].vals[k], Under(at, k), rules)
    ensures p in TagsBelow(g, n, at, rules, i)
  {
    if j < i - 1 {
      BelowHas(g, n, at, rules, i - 1, j, p);
    }
  }

  /** Each problem of the walk is an unresolved tag. */
  lemma {:induction false} TagReported(g: Graph, v: Val, at: string, rules: Rules, p: Problem) returns (rest: Path)
    requires g.Falling() && g.Holds(v)
    requires p in TagsIn(g, v, at, rules)
    ensures Found(g, v, at, rules, rest, p)
    decreases g.Height(v)
  {
    rest := [];
    if !v.Tagged? {
      var k := BelowFrom(g, v.node, at, rules, |g.nodes[v.node].order|, p);
      ChildHeld(g, v.node, k);
      var deeper := TagReported(g, g.nodes[v.node].vals[k], Under(at, k), rules, p);
      FoundStep(g, v.node, at, rules, k, deeper, p);
      rest := [k] + deeper;
    }
  }

  /** Each unresolved tag is reported. */
  lemma {:induction false} TagFound(g: Graph, v: Val, at: string, rules: Rules, rest: Path, p: Problem)
    requires g.Valid() && g.Holds(v)
    requires Found(g, v, at, rules, rest, p)
    ensures p in TagsIn(g, v, at, rules)
    decreases |rest|
  {
    if |rest| > 0 {
      var n, k := v.node, rest[0];
      assert rest == [k] + rest[1..] && g.Sound(n);
      var j :| 0 <= j < |g.nodes[n].order| && g.nodes[n].order[j] == k;
      FoundStep(g, n, at, rules, k, rest[1..], p);
      TagFound(g, g.nodes[n].vals[k], Under(at, k), rules, rest[1..], p);
      BelowHas(g, n, at, rules, |g.nodes[n].order|, j, p);
    }
  }

  /** The walk reports the unresolved tags at every depth, each at its own path, and nothing else. */
  lemma TagsExact(g: Graph, v: Val, at: string, rules: Rules, p: Problem)
    requires g.Valid() && g.Holds(v)
    ensures p in TagsIn(g, v, at, rules) <==> exists rest :: Found(g, v, at, rules, rest, p)
  {
    if p in TagsIn(g, v, at, rules) {
      var rest := TagReported(g, v, at, rules, p);
    }
    if rest :| Found(g, v, at, rules, rest, p) {
      TagFound(g, v, at, rules, rest, p);
    }
  }

  /** The walk `accessorProblems` makes beneath a literal. */
  class TagWalker {
    var problems: seq<Problem>

    constructor ()
      ensures problems == []
    {
      problems := [];
    }

    method Walk(v: Val, at: string, rules: Rules, ghost g: Graph)
      requires g.Valid() && g.Holds(v) && g.Depicts()
      modifies this
      ensures problems == old(problems) + TagsIn(g, v, at, rules)
      decreases g.Height(v), 1
    {
      if v.Tagged? {
        if !rules.Resolved(v.tag) {
          problems := problems + [NestedTag(at, v.tag)];
        }
        return;
      }
      if v.Ref? && (v.node.isArray || v.node.plain) {
        assert g.nodes[v.node] == v.node.Get();
        WalkBelow(v.node, at, rules, g);
      }
    }

    method WalkBelow(n: Node, at: string, rules: Rules, ghost g: Graph)
      requires g.Valid() && n in g.nodes && g.Depicts()
      modifies this
      ensures problems == old(problems) + TagsBelow(g, n, at, rules, |g.nodes[n].order|)
      decreases g.Height(Ref(n)), 0
    {
      ghost var before := problems;
      assert g.nodes[n] == n.Get() && g.Sound(n);
      for i := 0 to |n.order|
        invariant problems == before + TagsBelow(g, n, at, rules, i)
      {
        var k := n.order[i];
        assert k in g.nodes[n].vals;
        ChildHeld(g, n, k);
        Walk(n.vals[k], Under(at, k), rules, g);
        Regroup3(before, TagsBelow(g, n, at, rules, i), TagsIn(g, g.nodes[n].vals[k], Under(at, k), rules));
      }
    }
  }

  /** What is wrong with a value at an accessor field: no chain of the field's, or tags nothing resolves. */
  ghost function Problems(g: Graph, v: Val, path: string, bindings: seq<string>, rules: Rules): seq<Problem>
    requires g.Falling() && g.Holds(v)
  {
    if v.Tagged? && !rules.Resolved(v.tag) then
      match PlainChainOf(v)
      case None => [NotAChain(path, v.tag)]
      case Some(chain) => if Split(chain, '.')[0] in bindings then [] else [UnboundRoot(path, Split(chain, '.')[0])]
    else TagsIn(g, v, path, rules)
  }

  method AccessorProblems(v: Val, path: string, bindings: seq<string>, rules: Rules, ghost g: Graph)
    returns (problems: seq<Problem>)
    requires g.Valid() && g.Holds(v) && g.Depicts()
    ensures problems == Problems(g, v, path, bindings, rules)
  {
    if v.Tagged? && !rules.Resolved(v.tag) {
      match PlainChainOf(v)
      case None =>
        return [NotAChain(path, v.tag)];
      case Some(chain) =>
        var root := Split(chain, '.')[0];
        return if root in bindings then [] else [UnboundRoot(path, root)];
    }
    var walker := new TagWalker();
    walker.Walk(v, path, rules, g);
    problems := walker.problems;
  }

  // --- What a controller receives --------------------------------------------------------------

  function BindingOf(v: Val, rules: Rules): Binding {
    if v.Tagged? && rules.resolvedEarlier(v.tag) then Literal(v)
    else
      match PlainChainOf(v)
      case None => Literal(v)
      case Some(chain) => Chain(Split(chain, '.')[0], Split(chain, '.')[1..])
  }

  /** A chain rooted at a binding of the field, written as a tag nothing has replaced. */
  ghost predicate NamesChain(v: Val, bindings: seq<string>, rules: Rules) {
    exists parts :: WritesChain(v, parts) && rules.Open(v.tag) && parts[0] in bindings
  }

  /** What a value is delivered as: the parts of the chain it writes, or itself. */
  ghost predicate BoundAs(v: Val, rules: Rules, b: Binding) {
    && (forall parts :: WritesChain(v, parts) && !rules.resolvedEarlier(v.tag) ==> b == Chain(parts[0], parts[1..]))
    && ((v.Tagged? && rules.resolvedEarlier(v.tag)) || !(exists parts :: WritesChain(v, parts)) ==> b == Literal(v))
  }

  lemma BindingExactly(v: Val, rules: Rules, b: Binding)
    ensures BoundAs(v, rules, b) <==> b == BindingOf(v, rules)
  {
    ChainExactly(v);
    if PlainChainOf(v).Some? {
      var parts :| WritesChain(v, parts);
      assert BindingOf(v, rules) == if rules.resolvedEarlier(v.tag) then Literal(v) else Chain(parts[0], parts[1..]);
    }
  }

  /** What is reported of a tag nothing has replaced: that it is no chain, or the root no binding has. */
  lemma TagProblemsExactly(g: Graph, v: Val, path: string, bindings: seq<string>, rules: Rules)
    requires g.Falling() && g.Holds(v) && v.Tagged? && rules.Open(v.tag)
    ensures !(exists parts :: WritesChain(v, parts)) ==>
              Problems(g, v, path, bindings, rules) == [NotAChain(path, v.tag)]
    ensures forall parts :: WritesChain(v, parts) ==>
              Problems(g, v, path, bindings, rules) ==
              if parts[0] in bindings then [] else [UnboundRoot(path, parts[0])]
  {
    ChainExactly(v);
  }

  /**
   * A value stays exactly when it is a chain rooted at a binding of the field, or holds no
   * unresolved tag at any depth.
   */
  lemma AcceptedExactly(g: Graph, v: Val, path: string, bindings: seq<string>, rules: Rules)
    requires g.Valid() && g.Holds(v)
    ensures Problems(g, v, path, bindings, rules) == [] <==>
            (NamesChain(v, bindings, rules) || forall rest :: !Unresolved(g, v, rest, rules))
  {
    var problems := Problems(g, v, path, bindings, rules);
    if v.Tagged? && rules.Open(v.tag) {
      assert Unresolved(g, v, [], rules);
      TagProblemsExactly(g, v, path, bindings, rules);
      assert NamesChain(v, bindings, rules) <==> problems == [] by {
        if exists parts :: WritesChain(v, parts) {
          var parts :| WritesChain(v, parts);
          ChainExactly(v);
        }
      }
    } else if problems != [] {
      var rest := TagReported(g, v, path, rules, problems[0]);
      assert Unresolved(g, v, rest, rules);
    } else {
      forall rest | Unresolved(g, v, rest, rules) ensures false {
        TagFound(g, v, path, rules, rest, NestedTag(TextUnder(path, rest), g.At(v, rest).value.tag));
      }
    }
  }

  /**
   * What is delivered for an accepted value: a chain whose root is a binding of the field
   * and whose parts, joined by dots, are the text written; or the value itself, with no
   * unresolved tag in it.
   */
  lemma DeliveredExactly(g: Graph, v: Val, path: string, bindings: seq<string>, rules: Rules)
    requires g.Valid() && g.Holds(v) && rules.CelRuns()
    requires Problems(g, v, path, bindings, rules) == []
    ensures
      match BindingOf(v, rules)
      case Chain(root, names) =>
        && WritesChain(v, [root] + names) && rules.Open(v.tag) && root in bindings
        && NamesChain(v, bindings, rules)
        && Join([root] + names, '.') == Trim(v.tag.source)
        && AllIdentifiers([root] + names)
      case Literal(value) => value == v && forall rest :: !Unresolved(g, v, rest, rules)
  {
    AcceptedExactly(g, v, path, bindings, rules);
    if BindingOf(v, rules).Chain? {
      var chain := PlainChainOf(v).value;
      assert !rules.literal(v.tag);
      JoinSplit(chain, '.');
      ChainParts(chain);
      assert [Split(chain, '.')[0]] + Split(chain, '.')[1..] == Split(chain, '.');
      assert WritesChain(v, Split(chain, '.'));
      TagProblemsExactly(g, v, path, bindings, rules);
    } else if NamesChain(v, bindings, rules) {
      ChainExactly(v);
      assert false;
    }
  }
}
