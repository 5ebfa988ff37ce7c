/**
 * Parsed documents as the analyzer holds them: objects that may be shared and may form
 * cycles, read but never written.
 */
module ObjectGraph {
  type Id = nat

  /** `Other` is anything else: null, a number, a boolean, a function. */
  datatype Val = Undefined | Text(text: string) | Other | Ref(id: Id)

  /**
   * An array, or an object with its own entries in order. A plain object is one without a
   * class; `inherits` tells one that has `Object.prototype` above it from one that has
   * nothing.
   */
  datatype Obj =
    | List(items: seq<Val>)
    | Record(plain: bool, inherits: bool, entries: seq<(string, Val)>)

  type Heap = map<Id, Obj>

  /** What `key in object` finds on any object with `Object.prototype` above it. */
  const INHERITED: set<string> := {
    "constructor", "hasOwnProperty", "isPrototypeOf", "propertyIsEnumerable", "toLocaleString", "toString", "valueOf",
    "__defineGetter__", "__defineSetter__", "__lookupGetter__", "__lookupSetter__", "__proto__"
  }

  function Values(entries: seq<(string, Val)>): (r: seq<Val>)
    ensures |r| == |entries| && forall i :: 0 <= i < |entries| ==> r[i] == entries[i].1
  {
    seq(|entries|, i requires 0 <= i < |entries| => entries[i].1)
  }

  predicate Own(o: Obj, key: string) {
    o.Record? && exists i :: 0 <= i < |o.entries| && o.entries[i].0 == key
  }

  /** `key in object` */
  predicate Has(o: Obj, key: string) {
    Own(o, key) || (o.Record? && o.inherits && key in INHERITED)
  }

  function OwnValue(entries: seq<(string, Val)>, key: string): (r: Val)
    ensures forall i :: 0 <= i < |entries| && entries[i].0 == key
                        && (forall j :: 0 <= j < i ==> entries[j].0 != key) ==>
              r == entries[i].1
  {
    if |entries| == 0 then Undefined
    else if entries[0].0 == key then entries[0].1
    else OwnValue(entries[1..], key)
  }

  /** `object[key]` */
  function Get(o: Obj, key: string): Val
    requires o.Record?
  {
    if Own(o, key) then OwnValue(o.entries, key)
    else if o.inherits && key in INHERITED then Other
    else Undefined
  }

  /** Entry `i` is the first with the key. */
  predicate FirstWith(entries: seq<(string, Val)>, key: string, i: nat) {
    i < |entries| && entries[i].0 == key && forall j :: 0 <= j < i ==> entries[j].0 != key
  }

  lemma {:induction false} FirstThere(entries: seq<(string, Val)>, key: string) returns (i: nat)
    requires exists j :: 0 <= j < |entries| && entries[j].0 == key
    ensures FirstWith(entries, key, i)
  {
    i := 0;
    if entries[0].0 != key {
      var j :| 0 <= j < |entries| && entries[j].0 == key;
      assert entries[1..][j - 1] == entries[j];
      i := FirstThere(entries[1..], key);
      i := i + 1;
      assert forall k :: 0 < k < i ==> entries[k] == entries[1..][k - 1];
    }
  }

  /** A read finds the first entry with the key, else what every object inherits, else nothing. */
  lemma GetExactly(o: Obj, key: string)
    requires o.Record?
    ensures forall i: nat :: FirstWith(o.entries, key, i) ==> Get(o, key) == o.entries[i].1
    ensures (forall i :: 0 <= i < |o.entries| ==> o.entries[i].0 != key) ==>
              Get(o, key) == if o.inherits && key in INHERITED then Other else Undefined
    ensures Own(o, key) <==> exists i: nat :: FirstWith(o.entries, key, i)
  {
    if Own(o, key) {
      var i := FirstThere(o.entries, key);
    }
  }

  predicate Fits(h: Heap, v: Val) {
    v.Ref? ==> v.id in h
  }

  /** Every value an object holds. */
  function Held(o: Obj): seq<Val> {
    match o
    case List(items) => items
    case Record(_, _, entries) => Values(entries)
  }

  ghost predicate Sound(o: Obj) {
    o.Record? ==> forall i, j :: 0 <= i < j < |o.entries| ==> o.entries[i].0 != o.entries[j].0
  }

  /** No reference leads out of the graph, and no key is held twice. */
  ghost predicate Closed(h: Heap) {
    forall id {:trigger Whole(h, id)} :: id in h ==> Whole(h, id)
  }

  ghost predicate Whole(h: Heap, id: Id)
    requires id in h
  {
    Sound(h[id]) && forall v :: v in Held(h[id]) ==> Fits(h, v)
  }

  lemma HeldFits(h: Heap, id: Id, v: Val)
    requires Closed(h) && id in h && v in Held(h[id])
    ensures Fits(h, v)
  {
    assert Whole(h, id);
  }

  /** `isPlainObject` */
  predicate IsPlain(h: Heap, v: Val) {
    v.Ref? && v.id in h && h[v.id].Record? && h[v.id].plain
  }
}
