/**
 * One `x-telo-application-source` annotation on a top-level property: what the strict side
 * finds wrong with it, and what an annotation without a fault is.
 */
module ApplicationSourceAnnotation {
  import opened ApplicationSource
  import opened JsonPointer
  import opened ObjectGraph
  import opened PathText
  import opened Prelude

  const EVAL := "x-telo-eval"

  datatype Fault =
    | Misplaced
    | Repeated(other: string)
    | NotAString
    | Evaluated
    | NotAnObject
    | UnknownKeys(keys: seq<string>)
    | NotAPointer
    | SourceItself
    | Undeclared
    | Shared(other: string)

  datatype Problem = Problem(path: Path, fault: Fault)

  // --- Declared properties ---------------------------------------------------------------------

  /** `declaresProperty`: every key is found in the `properties` of the schema before it. */
  predicate Declares(h: Heap, v: Val, keys: seq<string>)
    decreases |keys|
  {
    |keys| == 0 ||
    (HasProperties(h, v) && var properties := h[Get(h[v.id], "properties").id];
     Has(properties, keys[0]) && Declares(h, Get(properties, keys[0]), keys[1..]))
  }

  /** A schema of its own at every key. */
  predicate Named(h: Heap, v: Val, keys: seq<string>)
    decreases |keys|
  {
    |keys| == 0 ||
    (HasProperties(h, v) && var properties := h[Get(h[v.id], "properties").id];
     Own(properties, keys[0]) && Named(h, Get(properties, keys[0]), keys[1..]))
  }

  /** Only the last key is one that every object inherits. */
  predicate Slips(h: Heap, v: Val, keys: seq<string>)
    decreases |keys|
  {
    |keys| > 0 && HasProperties(h, v) && var properties := h[Get(h[v.id], "properties").id];
    if |keys| == 1 then !Own(properties, keys[0]) && properties.inherits && keys[0] in INHERITED
    else Own(properties, keys[0]) && Slips(h, Get(properties, keys[0]), keys[1..])
  }

  /**
   * A pointer is held to name a declared property exactly when the schema declares one there,
   * or when its last key is one every object inherits: `/constructor` names none and passes.
   */
  lemma {:induction false} DeclaresExactly(h: Heap, v: Val, keys: seq<string>)
    ensures Declares(h, v, keys) <==> Named(h, v, keys) || Slips(h, v, keys)
    decreases |keys|
  {
    if |keys| > 0 && HasProperties(h, v) {
      var properties := h[Get(h[v.id], "properties").id];
      DeclaresExactly(h, Get(properties, keys[0]), keys[1..]);
    }
  }

  /** Such a schema: it declares nothing, and `/constructor` is held to name a property of it. */
  lemma ConstructorPasses() returns (h: Heap)
    ensures HasProperties(h, Ref(0)) && PropertiesOf(h, Ref(0)) == []
    ensures Declares(h, Ref(0), ["constructor"]) && !Named(h, Ref(0), ["constructor"])
  {
    var root := Record(true, true, [("properties", Ref(1))]);
    h := map[0 := root, 1 := Record(true, true, [])];
    assert root.entries[0].0 == "properties" && Own(root, "properties");
    assert Get(root, "properties") == Ref(1);
    assert Slips(h, Ref(0), ["constructor"]);
    DeclaresExactly(h, Ref(0), ["constructor"]);
  }

  method DeclaresProperty(h: Heap, root: Val, keys: seq<string>) returns (r: bool)
    ensures r == Declares(h, root, keys)
  {
    var node := root;
    for i := 0 to |keys|
      invariant Declares(h, root, keys) <==> Declares(h, node, keys[i..])
    {
      if !HasProperties(h, node) || !Has(h[Get(h[node.id], "properties").id], keys[i]) {
        return false;
      }
      node := Get(h[Get(h[node.id], "properties").id], keys[i]);
      assert keys[i..][1..] == keys[i + 1..];
    }
    r := true;
  }

  // --- One annotation ----------------------------------------------------------------------------

  /** What is wrong with the pointer a block is given, the pointers before it being `targets`. */
  function BlockFault(h: Heap, root: Val, o: Obj, block: string, field: string,
          targets: map<string, string>): Option<Fault>
    requires o.Record?
  {
    var value := Get(o, block);
    if value == Undefined then None
    else
      match SegmentsOf(value)
      case None => Some(NotAPointer)
      case Some(segments) =>
        if segments == [field] then Some(SourceItself)
        else if !Declares(h, root, segments) then Some(Undeclared)
        else if value.text in targets then Some(Shared(targets[value.text]))
        else None
  }

  /** A pointer without a fault is a target of its block from then on. */
  function Targeted(value: Val, fault: Option<Fault>, block: string, targets: map<string, string>)
          : map<string, string> {
    if value.Text? && fault.None? then targets[value.text := block] else targets
  }

  function Targets(h: Heap, root: Val, o: Obj, field: string, blocks: seq<string>, n: nat): map<string, string>
    requires o.Record? && n <= |blocks|
  {
    if n == 0 then map[]
    else
      var before := Targets(h, root, o, field, blocks, n - 1);
      var value := Get(o, blocks[n - 1]);
      Targeted(value, BlockFault(h, root, o, blocks[n - 1], field, before), blocks[n - 1], before)
  }

  function Reported(fault: Option<Fault>, path: Path, block: string): seq<Problem> {
    if fault.Some? then [Problem(path + [Name(block)], fault.value)] else []
  }

  function BlockFaults(h: Heap, root: Val, o: Obj, path: Path, field: string, blocks: seq<string>, n: nat): seq<Problem>
    requires o.Record? && n <= |blocks|
  {
    if n == 0 then []
    else
      var fault := BlockFault(h, root, o, blocks[n - 1], field, Targets(h, root, o, field, blocks, n - 1));
      BlockFaults(h, root, o, path, field, blocks, n - 1)
      + Reported(fault, path, blocks[n - 1])
  }

  function Unknown(entries: seq<(string, Val)>): seq<string> {
    if |entries| == 0 then []
    else (if entries[0].0 in BLOCKS then [] else [entries[0].0]) + Unknown(entries[1..])
  }

  function ValueFaults(h: Heap, root: Val, raw: Val, path: Path, field: string): seq<Problem> {
    if !IsPlain(h, raw) then [Problem(path, NotAnObject)]
    else
      (if Unknown(h[raw.id].entries) == [] then [] else [Problem(path, UnknownKeys(Unknown(h[raw.id].entries)))])
      + BlockFaults(h, root, h[raw.id], path, field, BLOCKS, |BLOCKS|)
  }

  function TypeFaults(o: Obj, path: Path): seq<Problem>
    requires o.Record?
  {
    (if Get(o, "type") == Text("string") then [] else [Problem(path + [Name("type")], NotAString)])
    + (if Has(o, EVAL) then [Problem(path + [Name(EVAL)], Evaluated)] else [])
  }

  /** The problems of an annotation on the top-level property `field`. */
  function AnnotationFaults(h: Heap, root: Val, o: Obj, path: Path, field: string): seq<Problem>
    requires o.Record?
  {
    TypeFaults(o, path) + ValueFaults(h, root, Get(o, ANNOTATION), path + [Name(ANNOTATION)], field)
  }

  /** The pointer of a block that is written: to a declared property, not the source's own. */
  predicate Points(h: Heap, root: Val, o: Obj, block: string, field: string)
    requires o.Record?
  {
    Get(o, block) != Undefined ==>
      SegmentsOf(Get(o, block)).Some? && SegmentsOf(Get(o, block)).value != [field]
      && Declares(h, root, SegmentsOf(Get(o, block)).value)
  }

  /** Two blocks are not given one value. */
  predicate Apart(o: Obj, b: string, c: string)
    requires o.Record?
  {
    Get(o, b) != Undefined ==> Get(o, b) != Get(o, c)
  }

  /** No block before is given the value of block `n`. */
  ghost predicate OfItsOwn(o: Obj, blocks: seq<string>, n: nat)
    requires o.Record? && n < |blocks|
  {
    forall i {:trigger Apart(o, blocks[i], blocks[n])} :: 0 <= i < n ==> Apart(o, blocks[i], blocks[n])
  }

  /** What the first `n` blocks must be: each a pointer of its own. */
  ghost predicate BlocksHonoured(h: Heap, root: Val, o: Obj, field: string, blocks: seq<string>, n: nat)
    requires o.Record? && n <= |blocks|
  {
    n == 0 ||
    (BlocksHonoured(h, root, o, field, blocks, n - 1)
     && Points(h, root, o, blocks[n - 1], field) && OfItsOwn(o, blocks, n - 1))
  }

  lemma {:induction false} HonouredAt(h: Heap, root: Val, o: Obj, field: string, blocks: seq<string>, n: nat, i: nat)
    requires o.Record? && i < n <= |blocks| && BlocksHonoured(h, root, o, field, blocks, n)
    ensures Points(h, root, o, blocks[i], field)
    ensures forall j :: 0 <= j < i ==> Apart(o, blocks[j], blocks[i])
  {
    if i < n - 1 {
      HonouredAt(h, root, o, field, blocks, n - 1, i);
    }
  }

  /** A pointer one of the first `n` blocks is given. */
  ghost predicate Written(o: Obj, blocks: seq<string>, n: nat, pointer: string)
    requires o.Record? && n <= |blocks|
  {
    exists i :: 0 <= i < n && Get(o, blocks[i]) == Text(pointer)
  }

  lemma FaultlessBlock(h: Heap, root: Val, o: Obj, block: string, field: string, targets: map<string, string>)
    requires o.Record?
    ensures BlockFault(h, root, o, block, field, targets).None? <==>
            Points(h, root, o, block, field) && (Get(o, block).Text? ==> Get(o, block).text !in targets)
  {
  }

  /** Among pointers, being no target is being of one's own. */
  lemma OwnTarget(o: Obj, blocks: seq<string>, n: nat, targets: map<string, string>)
    requires o.Record? && n < |blocks|
    requires forall p :: p in targets <==> Written(o, blocks, n, p)
    requires Get(o, blocks[n]).Text? || Get(o, blocks[n]) == Undefined
    ensures (Get(o, blocks[n]).Text? ==> Get(o, blocks[n]).text !in targets) <==> OfItsOwn(o, blocks, n)
  {
    var value := Get(o, blocks[n]);
    if value.Text? && value.text in targets {
      assert Written(o, blocks, n, value.text);
      var i :| 0 <= i < n && Get(o, blocks[i]) == value;
      assert !Apart(o, blocks[i], blocks[n]);
    }
    if value.Text? && value.text !in targets {
      assert !Written(o, blocks, n, value.text);
    }
  }

  /** The next block is without a fault exactly when it is honoured beside those before it. */
  lemma NextHonoured(h: Heap, root: Val, o: Obj, field: string, blocks: seq<string>, n: nat,
          targets: map<string, string>)
    requires o.Record? && n < |blocks| && BlocksHonoured(h, root, o, field, blocks, n)
    requires forall p :: p in targets <==> Written(o, blocks, n, p)
    ensures BlockFault(h, root, o, blocks[n], field, targets).None? <==>
        BlocksHonoured(h, root, o, field, blocks, n + 1)
  {
    FaultlessBlock(h, root, o, blocks[n], field, targets);
    if Points(h, root, o, blocks[n], field) {
      OwnTarget(o, blocks, n, targets);
    }
  }

  /** While no block is at fault the targets are the pointers written. */
  lemma {:induction false} TargetsWritten(h: Heap, root: Val, o: Obj, field: string, blocks: seq<string>, n: nat)
    requires o.Record? && n <= |blocks| && BlocksHonoured(h, root, o, field, blocks, n)
    ensures forall p :: p in Targets(h, root, o, field, blocks, n) <==> Written(o, blocks, n, p)
  {
    if n > 0 {
      var before, value := Targets(h, root, o, field, blocks, n - 1), Get(o, blocks[n - 1]);
      TargetsWritten(h, root, o, field, blocks, n - 1);
      NextHonoured(h, root, o, field, blocks, n - 1, before);
      forall p ensures Written(o, blocks, n, p) <==> Written(o, blocks, n - 1, p) || value == Text(p) {
        if Written(o, blocks, n, p) {
          var i :| 0 <= i < n && Get(o, blocks[i]) == Text(p);
          assert i < n - 1 ==> Written(o, blocks, n - 1, p);
        }
      }
    }
  }

  lemma NextFaultless(h: Heap, root: Val, o: Obj, path: Path, field: string, blocks: seq<string>, n: nat)
    requires o.Record? && 0 < n <= |blocks|
    ensures BlockFaults(h, root, o, path, field, blocks, n) == [] <==>
            BlockFaults(h, root, o, path, field, blocks, n - 1) == []
            && BlockFault(h, root, o, blocks[n - 1], field, Targets(h, root, o, field, blocks, n - 1)).None?
  {
  }

  lemma NextExactly(h: Heap, root: Val, o: Obj, field: string, blocks: seq<string>, n: nat)
    requires o.Record? && 0 < n <= |blocks|
    ensures BlocksHonoured(h, root, o, field, blocks, n) <==>
            BlocksHonoured(h, root, o, field, blocks, n - 1)
            && BlockFault(h, root, o, blocks[n - 1], field, Targets(h, root, o, field, blocks, n - 1)).None?
  {
    if BlocksHonoured(h, root, o, field, blocks, n - 1) {
      TargetsWritten(h, root, o, field, blocks, n - 1);
      NextHonoured(h, root, o, field, blocks, n - 1, Targets(h, root, o, field, blocks, n - 1));
    }
  }

  lemma {:induction false} BlockFaultsExactly(h: Heap, root: Val, o: Obj, path: Path, field: string,
          blocks: seq<string>, n: nat)
    requires o.Record? && n <= |blocks|
    ensures BlockFaults(h, root, o, path, field, blocks, n) == [] <==> BlocksHonoured(h, root, o, field, blocks, n)
  {
    if n > 0 {
      BlockFaultsExactly(h, root, o, path, field, blocks, n - 1);
      NextFaultless(h, root, o, path, field, blocks, n);
      NextExactly(h, root, o, field, blocks, n);
    }
  }

  lemma {:induction false} UnknownExactly(entries: seq<(string, Val)>)
    ensures Unknown(entries) == [] <==> forall i :: 0 <= i < |entries| ==> entries[i].0 in BLOCKS
  {
    if |entries| > 0 {
      UnknownExactly(entries[1..]);
      if Unknown(entries) == [] {
        forall i | 0 <= i < |entries| ensures entries[i].0 in BLOCKS {
          assert i > 0 ==> entries[i] == entries[1..][i - 1];
        }
      }
    }
  }

  /** An annotated property that the readers can honour. */
  ghost predicate Honoured(h: Heap, root: Val, o: Obj, field: string)
    requires o.Record?
  {
    var raw := Get(o, ANNOTATION);
    && Get(o, "type") == Text("string") && !Has(o, EVAL)
    && IsPlain(h, raw)
    && (forall i :: 0 <= i < |h[raw.id].entries| ==> h[raw.id].entries[i].0 in BLOCKS)
    && BlocksHonoured(h, root, h[raw.id], field, BLOCKS, |BLOCKS|)
  }

  lemma FaultlessExactly(h: Heap, root: Val, o: Obj, path: Path, field: string)
    requires o.Record?
    ensures AnnotationFaults(h, root, o, path, field) == [] <==> Honoured(h, root, o, field)
  {
    var raw := Get(o, ANNOTATION);
    if IsPlain(h, raw) {
      UnknownExactly(h[raw.id].entries);
      BlockFaultsExactly(h, root, h[raw.id], path + [Name(ANNOTATION)], field, BLOCKS, |BLOCKS|);
    }
  }
}
