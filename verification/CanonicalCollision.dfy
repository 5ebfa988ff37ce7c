/**
 * When two canonical strings can collide: never for values JSON can express, and always
 * for a value with a part it cannot.
 */
module CanonicalCollision {
  import opened CanonicalJson
  import opened JsonValue
  import opened Prelude

  /** Nothing in the value is printed as something else: no NaN, no infinity, no `-0`, no function. */
  predicate JsonOnly(v: Value) {
    match v
    case Undefined | Opaque => false
    case Number(n) => n.Finite? || n == Zero(false)
    case Arr(items) => forall i :: 0 <= i < |items| ==> JsonOnly(items[i])
    case Obj(entries) => forall i :: 0 <= i < |entries| ==> entries[i].1.Undefined? || JsonOnly(entries[i].1)
    case _ => true
  }

  /** Equal but for the order of keys and for entries that are `undefined`. */
  ghost predicate Strictly(v: Value, w: Value)
    decreases v
  {
    match v
    case Arr(items) =>
      && w.Arr? && |w.items| == |items|
      && forall i :: 0 <= i < |items| ==> Strictly(items[i], w.items[i])
    case Obj(entries) =>
      && w.Obj?
      && (forall i :: 0 <= i < |entries| && !entries[i].1.Undefined? ==>
            var there := At(w.entries, entries[i].0);
            there.Some? && Strictly(entries[i].1, there.value))
      && (forall j :: 0 <= j < |w.entries| && !w.entries[j].1.Undefined? ==> At(entries, w.entries[j].0).Some?)
    case _ => v == w
  }

  lemma {:induction false} AtJsonOnly(entries: seq<(Text, Value)>, key: Text)
    requires forall i :: 0 <= i < |entries| ==> entries[i].1.Undefined? || JsonOnly(entries[i].1)
    ensures At(entries, key).Some? ==> JsonOnly(At(entries, key).value)
  {
    if At(entries, key).Some? {
      var i := AtIndex(entries, key);
    }
  }

  lemma {:induction false} StrictlyIsSame(v: Value, w: Value)
    requires JsonOnly(v) && JsonOnly(w)
    ensures Strictly(v, w) <==> Same(v, w)
    decreases v
  {
    if v.Arr? && w.Arr? && |v.items| == |w.items| {
      forall i | 0 <= i < |v.items| ensures Strictly(v.items[i], w.items[i]) <==> Same(v.items[i], w.items[i]) {
        StrictlyIsSame(v.items[i], w.items[i]);
      }
    } else if v.Obj? && w.Obj? {
      forall i | 0 <= i < |v.entries| && !v.entries[i].1.Undefined? && At(w.entries, v.entries[i].0).Some?
        ensures Strictly(v.entries[i].1, At(w.entries, v.entries[i].0).value)
            <==> Same(v.entries[i].1, At(w.entries, v.entries[i].0).value)
      {
        AtJsonOnly(w.entries, v.entries[i].0);
        StrictlyIsSame(v.entries[i].1, At(w.entries, v.entries[i].0).value);
      }
    }
  }

  /** Values JSON can express have one string exactly when they are equal. */
  lemma JsonNeverCollides(v: Value, w: Value)
    requires WellFormed(v) && WellFormed(w) && JsonOnly(v) && JsonOnly(w)
    ensures Canonical(v) == Canonical(w) <==> Strictly(v, w)
  {
    CanonicalDecides(v, w);
    StrictlyIsSame(v, w);
  }

  // --- Values that collide -----------------------------------------------------------------------

  function Twins(items: seq<Value>): (r: seq<Value>)
    ensures |r| == |items| && forall i :: 0 <= i < |items| ==> r[i] == Twin(items[i])
    decreases items, 0
  {
    if |items| == 0 then [] else [Twin(items[0])] + Twins(items[1..])
  }

  function EntryTwins(entries: seq<(Text, Value)>): (r: seq<(Text, Value)>)
    ensures |r| == |entries|
    ensures forall i :: 0 <= i < |entries| ==>
              assert entries[i].1 < entries[i];
              r[i].0 == entries[i].0 && r[i].1 == if entries[i].1.Undefined? then Undefined else Twin(entries[i].1)
    decreases entries, 0
  {
    if |entries| == 0 then []
    else
      var e := entries[0];
      assert e.1 < e;
      [(e.0, if e.1.Undefined? then Undefined else Twin(e.1))] + EntryTwins(entries[1..])
  }

  /** The value with each part JSON cannot express read as it is printed. */
  function Twin(v: Value): Value
    decreases v, 1
  {
    if Nullish(v) then Null
    else
      match v
      case Number(n) => if n.Zero? then Number(Zero(false)) else v
      case Arr(items) => Arr(Twins(items))
      case Obj(entries) => Obj(EntryTwins(entries))
      case _ => v
  }

  lemma {:induction false} AtTwin(entries: seq<(Text, Value)>, key: Text)
    ensures At(EntryTwins(entries), key) == match At(entries, key) case None => None case Some(v) => Some(Twin(v))
  {
    if |entries| > 0 {
      AtTwin(entries[1..], key);
      var twins := EntryTwins(entries);
      assert twins[1..] == EntryTwins(entries[1..]);
      assert !Twin(entries[0].1).Undefined?;
    }
  }

  lemma {:induction false} TwinJson(v: Value)
    requires WellFormed(v)
    ensures WellFormed(Twin(v)) && JsonOnly(Twin(v)) && Same(v, Twin(v))
    decreases v
  {
    if v.Arr? {
      forall i | 0 <= i < |v.items|
        ensures WellFormed(Twin(v.items[i])) && JsonOnly(Twin(v.items[i])) && Same(v.items[i], Twin(v.items[i]))
      {
        TwinJson(v.items[i]);
      }
    } else if v.Obj? {
      TwinEntries(v);
    }
  }

  lemma TwinEntries(v: Value)
    requires WellFormed(v) && v.Obj?
    ensures WellFormed(Twin(v)) && JsonOnly(Twin(v)) && Same(v, Twin(v))
    decreases v, 0
  {
    var es, twins := v.entries, EntryTwins(v.entries);
    forall i | 0 <= i < |es|
      ensures WellFormed(twins[i].1) && (twins[i].1.Undefined? || JsonOnly(twins[i].1))
      ensures !es[i].1.Undefined? ==> At(twins, es[i].0) == Some(Twin(es[i].1)) && Same(es[i].1, Twin(es[i].1))
      ensures !es[i].1.Undefined? ==> At(es, es[i].0).Some?
    {
      if !es[i].1.Undefined? {
        TwinJson(es[i].1);
        AtEntry(es, i);
        AtTwin(es, es[i].0);
      }
    }
    forall j | 0 <= j < |twins| && !twins[j].1.Undefined? ensures At(es, twins[j].0).Some? {
      assert twins[j].0 == es[j].0 && !es[j].1.Undefined?;
    }
  }

  /** A value is its own twin, but for nothing, exactly when JSON can express it. */
  lemma {:induction false} TwinStrictly(v: Value)
    requires WellFormed(v)
    ensures Strictly(v, Twin(v)) <==> JsonOnly(v)
    decreases v
  {
    if v.Arr? {
      forall i | 0 <= i < |v.items| ensures Strictly(v.items[i], Twin(v.items[i])) <==> JsonOnly(v.items[i]) {
        TwinStrictly(v.items[i]);
      }
    } else if v.Obj? {
      TwinEntriesStrictly(v);
    }
  }

  lemma TwinEntriesStrictly(v: Value)
    requires WellFormed(v) && v.Obj?
    ensures Strictly(v, Twin(v)) <==> JsonOnly(v)
    decreases v, 0
  {
    var es, twins := v.entries, EntryTwins(v.entries);
    forall i | 0 <= i < |es| && !es[i].1.Undefined?
      ensures At(twins, es[i].0) == Some(Twin(es[i].1))
      ensures Strictly(es[i].1, Twin(es[i].1)) <==> JsonOnly(es[i].1)
      ensures At(es, es[i].0).Some?
    {
      TwinStrictly(es[i].1);
      AtEntry(es, i);
      AtTwin(es, es[i].0);
    }
    forall j | 0 <= j < |twins| && !twins[j].1.Undefined? ensures At(es, twins[j].0).Some? {
      assert twins[j].0 == es[j].0 && !es[j].1.Undefined?;
    }
  }

  /** A value with a part JSON cannot express has the string of another value. */
  lemma OthersCollide(v: Value) returns (w: Value)
    requires WellFormed(v) && !JsonOnly(v)
    ensures WellFormed(w) && JsonOnly(w)
    ensures Canonical(w) == Canonical(v) && !Strictly(v, w)
  {
    w := Twin(v);
    TwinJson(v);
    CanonicalDecides(v, w);
    TwinStrictly(v);
  }
}
