/**
 * The layer index of a published module: a single-pass, validated parse that skips what
 * a newer runtime wrote, and the lookups that rely on its one-address-one-layer rule.
 */
module ArtifactLayerIndex {
  import opened Prelude
  import opened ArtifactSelector

  datatype Role = Controller | Library | Native | Browser | Assets | Common

  function RoleName(role: Role): string {
    match role
    case Controller => "controller"
    case Library => "library"
    case Native => "native"
    case Browser => "browser"
    case Assets => "assets"
    case Common => "common"
  }

  /** `None` for a role this runtime does not know. */
  function RoleOf(name: string): (r: Option<Role>)
    ensures r.Some? ==> RoleName(r.value) == name
    ensures forall role :: RoleName(role) == name ==> r == Some(role)
  {
    if name == "controller" then Some(Controller)
    else if name == "library" then Some(Library)
    else if name == "native" then Some(Native)
    else if name == "browser" then Some(Browser)
    else if name == "assets" then Some(Assets)
    else if name == "common" then Some(Common)
    else None
  }

  predicate CarriesSelector(role: Role) {
    role.Controller? || role.Library? || role.Native? || role.Browser?
  }

  datatype Layer = Layer(role: Role, selector: Option<Selector>, blob: string, integrity: string)

  // --- One entry ----------------------------------------------------------------------

  predicate IsHex(c: char) { '0' <= c <= '9' || 'a' <= c <= 'f' }

  predicate IsBase64Url(c: char) {
    'A' <= c <= 'Z' || 'a' <= c <= 'z' || '0' <= c <= '9' || c == '_' || c == '-'
  }

  /** `sha256:` and 64 lowercase hex digits. */
  predicate IsBlobDigest(s: string) {
    |s| == 71 && s[..7] == "sha256:" && forall i :: 7 <= i < 71 ==> IsHex(s[i])
  }

  /** `sha256-` and 43 base64url characters. */
  predicate IsContentDigest(s: string) {
    |s| == 50 && s[..7] == "sha256-" && forall i :: 7 <= i < 50 ==> IsBase64Url(s[i])
  }

  /** What every entry must be, whatever its role: an object, a role name, two digests. */
  predicate Structured(raw: Raw) {
    && raw.Record?
    && Get(raw.fields, "role").Str? && Get(raw.fields, "role").s != ""
    && Get(raw.fields, "blob").Str? && IsBlobDigest(Get(raw.fields, "blob").s)
    && Get(raw.fields, "integrity").Str? && IsContentDigest(Get(raw.fields, "integrity").s)
  }

  datatype Verdict = Malformed | Skipped | Understood(layer: Layer)

  /** What the parse makes of one entry, before it looks at the others. */
  function Judge(v: Vocabulary, raw: Raw): Verdict {
    if !Structured(raw) then Malformed
    else
      var role := RoleOf(Get(raw.fields, "role").s);
      var blob, integrity := Get(raw.fields, "blob").s, Get(raw.fields, "integrity").s;
      var selector := Get(raw.fields, "selector");
      if role.None? then Skipped
      else if !CarriesSelector(role.value) then
        if selector.Undefined? then Understood(Layer(role.value, None, blob, integrity)) else Malformed
      else if selector.Undefined? then Malformed
      else
        match NormalizeSelector(v, selector)
        case Refused => Malformed
        case ForNewerRuntime => Skipped
        case Known(s) => Understood(Layer(role.value, Some(s), blob, integrity))
  }

  predicate ValidLayer(v: Vocabulary, l: Layer) {
    && (CarriesSelector(l.role) <==> l.selector.Some?)
    && (l.selector.Some? ==> ValidSelector(v, l.selector.value))
    && IsBlobDigest(l.blob) && IsContentDigest(l.integrity)
  }

  // --- The whole index ------------------------------------------------------------------

  /** What a layer is found by: no two layers of an artifact share one. */
  function Address(l: Layer): (Role, Option<Selector>) {
    (l.role, l.selector)
  }

  predicate OneAddressEach(layers: seq<Layer>) {
    forall i, j :: 0 <= i < j < |layers| ==> Address(layers[i]) != Address(layers[j])
  }

  /** The understood entries, in order. */
  function Layers(v: Vocabulary, entries: seq<Raw>): (r: seq<Layer>)
    ensures forall l :: l in r ==> ValidLayer(v, l)
  {
    if |entries| == 0 then []
    else
      var last := Judge(v, entries[|entries| - 1]);
      Layers(v, entries[..|entries| - 1]) + if last.Understood? then [last.layer] else []
  }

  /** No entry is malformed, and no two understood ones claim one address. */
  ghost predicate Accepts(v: Vocabulary, entries: seq<Raw>) {
    (forall e :: e in entries ==> !Judge(v, e).Malformed?) && OneAddressEach(Layers(v, entries))
  }

  /** The string the parse remembers a selector-keyed layer by. */
  function SeenKey(v: Vocabulary, role: Role, s: Selector): string {
    RoleName(role) + "\0" + Key(v, s)
  }

  lemma SeenKeyInjective(v: Vocabulary, a: Role, s: Selector, b: Role, t: Selector)
    requires v.Valid() && ValidSelector(v, s) && ValidSelector(v, t)
    requires CarriesSelector(a) && CarriesSelector(b)
    ensures SeenKey(v, a, s) == SeenKey(v, b, t) <==> a == b && s == t
  {
    if SeenKey(v, a, s) == SeenKey(v, b, t) {
      assert SeenKey(v, a, s)[0] == RoleName(a)[0] && SeenKey(v, b, t)[0] == RoleName(b)[0];
      assert a == b;
      assert SeenKey(v, a, s)[|RoleName(a)| + 1..] == Key(v, s);
      assert SeenKey(v, b, t)[|RoleName(b)| + 1..] == Key(v, t);
      KeyInjective(v, s, t);
    }
  }

  lemma {:induction false} LayersConcat(v: Vocabulary, a: seq<Raw>, b: seq<Raw>)
    ensures Layers(v, a + b) == Layers(v, a) + Layers(v, b)
  {
    if |b| == 0 {
      assert a + b == a;
    } else {
      LayersConcat(v, a, b[..|b| - 1]);
      assert (a + b)[..|a + b| - 1] == a + b[..|b| - 1];
    }
  }

  /** What the two sets of the parse hold after the layers so far. */
  ghost predicate Remembers(v: Vocabulary, layers: seq<Layer>, seenSelectors: set<string>, seenSingletons: set<Role>) {
    && (forall k :: k in seenSelectors <==> exists l ::
        l in layers && l.selector.Some? && k == SeenKey(v, l.role, l.selector.value))
    && (forall r :: r in seenSingletons <==> exists l :: l in layers && l.selector.None? && l.role == r)
  }

  ghost predicate Taken(layers: seq<Layer>, l: Layer) {
    exists i :: 0 <= i < |layers| && Address(layers[i]) == Address(l)
  }

  lemma SelectorTaken(v: Vocabulary, layers: seq<Layer>, seenSelectors: set<string>, seenSingletons: set<Role>,
          l: Layer)
    requires v.Valid() && Remembers(v, layers, seenSelectors, seenSingletons)
    requires forall m :: m in layers ==> ValidLayer(v, m)
    requires ValidLayer(v, l) && l.selector.Some?
    ensures SeenKey(v, l.role, l.selector.value) in seenSelectors <==> Taken(layers, l)
  {
    var key := SeenKey(v, l.role, l.selector.value);
    if key in seenSelectors {
      var m :| m in layers && m.selector.Some? && key == SeenKey(v, m.role, m.selector.value);
      SeenKeyInjective(v, l.role, l.selector.value, m.role, m.selector.value);
      var i :| 0 <= i < |layers| && layers[i] == m;
      assert Address(layers[i]) == Address(l);
    }
    if Taken(layers, l) {
      var i :| 0 <= i < |layers| && Address(layers[i]) == Address(l);
      assert layers[i] in layers;
    }
  }

  lemma SingletonTaken(v: Vocabulary, layers: seq<Layer>, seenSelectors: set<string>, seenSingletons: set<Role>,
          l: Layer)
    requires Remembers(v, layers, seenSelectors, seenSingletons)
    requires l.selector.None?
    ensures l.role in seenSingletons <==> Taken(layers, l)
  {
    if l.role in seenSingletons {
      var m :| m in layers && m.selector.None? && m.role == l.role;
      var i :| 0 <= i < |layers| && layers[i] == m;
      assert Address(layers[i]) == Address(l);
    }
    if Taken(layers, l) {
      var i :| 0 <= i < |layers| && Address(layers[i]) == Address(l);
      assert layers[i] in layers;
    }
  }

  lemma RemembersAppended(v: Vocabulary, layers: seq<Layer>, seenSelectors: set<string>, seenSingletons: set<Role>,
          l: Layer)
    requires Remembers(v, layers, seenSelectors, seenSingletons)
    ensures l.selector.Some? ==> Remembers(v, layers + [l], seenSelectors + {SeenKey(v, l.role, l.selector.value)},
        seenSingletons)
    ensures l.selector.None? ==> Remembers(v, layers + [l], seenSelectors, seenSingletons + {l.role})
  {
    assert forall m :: m in layers + [l] <==> m in layers || m == l;
    assert l in layers + [l];
  }

  /** A prefix that cannot be accepted cannot be completed. */
  lemma RejectedPrefix(v: Vocabulary, entries: seq<Raw>, n: nat)
    requires n <= |entries|
    requires !Accepts(v, entries[..n])
    ensures !Accepts(v, entries)
  {
    assert entries == entries[..n] + entries[n..];
    LayersConcat(v, entries[..n], entries[n..]);
    if OneAddressEach(Layers(v, entries)) {
      var whole, part := Layers(v, entries), Layers(v, entries[..n]);
      forall i, j | 0 <= i < j < |part| ensures Address(part[i]) != Address(part[j]) {
        assert part[i] == whole[i] && part[j] == whole[j];
      }
      var e :| e in entries[..n] && Judge(v, e).Malformed?;
      assert e in entries;
    }
  }

  lemma LayersOfPrefix(v: Vocabulary, entries: seq<Raw>, i: nat)
    requires i < |entries|
    ensures Layers(v, entries[..i + 1])
         == Layers(v, entries[..i]) + (if Judge(v, entries[i]).Understood? then [Judge(v, entries[i]).layer] else [])
    ensures forall e :: e in entries[..i + 1] <==> e in entries[..i] || e == entries[i]
  {
    assert entries[..i + 1][..i] == entries[..i];
    assert entries[..i + 1] == entries[..i] + [entries[i]];
  }

  /** A layer at a free address joins the accepted prefix; one at a taken address ends the parse. */
  lemma NextLayer(v: Vocabulary, entries: seq<Raw>, i: nat)
    requires i < |entries| && Accepts(v, entries[..i])
    ensures Judge(v, entries[i]).Malformed? ==> !Accepts(v, entries)
    ensures Judge(v, entries[i]).Skipped? ==> Accepts(v, entries[..i + 1])
    ensures Judge(v, entries[i]).Understood? ==>
              if Taken(Layers(v, entries[..i]), Judge(v, entries[i]).layer) then !Accepts(v, entries)
              else Accepts(v, entries[..i + 1])
  {
    LayersOfPrefix(v, entries, i);
    var verdict := Judge(v, entries[i]);
    if verdict.Malformed? {
      assert entries[i] in entries;
    } else if verdict.Understood? && Taken(Layers(v, entries[..i]), verdict.layer) {
      Collision(Layers(v, entries[..i]), verdict.layer);
      RejectedPrefix(v, entries, i + 1);
    }
  }

  method ParseLayerIndex(v: Vocabulary, value: Raw) returns (r: Option<seq<Layer>>)
    requires v.Valid()
    ensures r.Some? <==> value.List? && Accepts(v, value.items)
    ensures r.Some? ==> r.value == Layers(v, value.items)
  {
    if !value.List? {
      return None;
    }
    var layers: seq<Layer> := [];
    var seenSelectors: set<string> := {};
    var seenSingletons: set<Role> := {};
    for i := 0 to |value.items|
      invariant layers == Layers(v, value.items[..i])
      invariant Accepts(v, value.items[..i])
      invariant Remembers(v, layers, seenSelectors, seenSingletons)
    {
      var verdict := Judge(v, value.items[i]);
      NextLayer(v, value.items, i);
      LayersOfPrefix(v, value.items, i);
      if verdict.Malformed? {
        return None;
      }
      if verdict.Understood? {
        var l := verdict.layer;
        RemembersAppended(v, layers, seenSelectors, seenSingletons, l);
        if l.selector.Some? {
          var key := SeenKey(v, l.role, l.selector.value);
          LayerIsValid(v, value.items[i]);
          SelectorTaken(v, layers, seenSelectors, seenSingletons, l);
          if key in seenSelectors {
            return None;
          }
          seenSelectors := seenSelectors + {key};
        } else {
          SingletonTaken(v, layers, seenSelectors, seenSingletons, l);
          if l.role in seenSingletons {
            return None;
          }
          seenSingletons := seenSingletons + {l.role};
        }
        layers := layers + [l];
      }
    }
    assert value.items[..|value.items|] == value.items;
    return Some(layers);
  }

  lemma LayerIsValid(v: Vocabulary, raw: Raw)
    ensures Judge(v, raw).Understood? ==> ValidLayer(v, Judge(v, raw).layer)
  {
  }

  lemma Collision(layers: seq<Layer>, l: Layer)
    requires Taken(layers, l)
    ensures !OneAddressEach(layers + [l])
  {
    var i :| 0 <= i < |layers| && Address(layers[i]) == Address(l);
    assert Address((layers + [l])[i]) == Address((layers + [l])[|layers|]);
  }

  // --- Re-parsing, and entries for newer runtimes -----------------------------------------

  /** A layer as the entry a published index carries for it. */
  function ToEntry(l: Layer): Raw {
    var fields := map["role" := Str(RoleName(l.role)), "blob" := Str(l.blob), "integrity" := Str(l.integrity)];
    Record(if l.selector.Some? then fields["selector" := ToRecord(l.selector.value)] else fields)
  }

  function ToEntries(layers: seq<Layer>): (r: seq<Raw>)
    ensures |r| == |layers|
    ensures forall i :: 0 <= i < |r| ==> r[i] == ToEntry(layers[i])
  {
    seq(|layers|, i requires 0 <= i < |layers| => ToEntry(layers[i]))
  }

  lemma JudgeRendered(v: Vocabulary, l: Layer)
    requires v.Valid() && ValidLayer(v, l)
    ensures Judge(v, ToEntry(l)) == Understood(l)
  {
    if l.selector.Some? {
      NormalizeRendered(v, l.selector.value);
    }
  }

  lemma OneRendered(v: Vocabulary, l: Layer)
    requires v.Valid() && ValidLayer(v, l)
    ensures Layers(v, [ToEntry(l)]) == [l]
  {
    JudgeRendered(v, l);
    assert [ToEntry(l)][..0] == [];
  }

  lemma LayersStep(v: Vocabulary, entries: seq<Raw>, e: Raw, layers: seq<Layer>, l: Layer)
    requires Layers(v, entries) == layers && Layers(v, [e]) == [l]
    ensures Layers(v, entries + [e]) == layers + [l]
  {
    LayersConcat(v, entries, [e]);
  }

  lemma EntriesStep(layers: seq<Layer>, n: nat)
    requires |layers| == n + 1
    ensures ToEntries(layers) == ToEntries(layers[..n]) + [ToEntry(layers[n])]
    ensures layers == layers[..n] + [layers[n]]
  {
  }

  lemma {:induction false} LayersRendered(v: Vocabulary, layers: seq<Layer>)
    requires v.Valid()
    requires forall l :: l in layers ==> ValidLayer(v, l)
    ensures Layers(v, ToEntries(layers)) == layers
  {
    if |layers| > 0 {
      var n := |layers| - 1;
      LayersRendered(v, layers[..n]);
      OneRendered(v, layers[n]);
      LayersStep(v, ToEntries(layers[..n]), ToEntry(layers[n]), layers[..n], layers[n]);
      EntriesStep(layers, n);
    }
  }

  /** Publishing what was parsed and parsing it again changes nothing. */
  lemma ReparseIsIdentity(v: Vocabulary, entries: seq<Raw>)
    requires v.Valid() && Accepts(v, entries)
    ensures Accepts(v, ToEntries(Layers(v, entries)))
    ensures Layers(v, ToEntries(Layers(v, entries))) == Layers(v, entries)
  {
    var layers := Layers(v, entries);
    LayersRendered(v, layers);
    forall e | e in ToEntries(layers) ensures !Judge(v, e).Malformed? {
      var i :| 0 <= i < |layers| && ToEntry(layers[i]) == e;
      assert layers[i] in layers;
      JudgeRendered(v, layers[i]);
    }
  }

  /**
   * Two kinds of entry are for a newer runtime: a well-formed one of an unknown role, and
   * one whose selector is valid but states an unknown axis.
   */
  predicate NewerRole(raw: Raw) {
    Structured(raw) && RoleOf(Get(raw.fields, "role").s).None?
  }

  predicate NewerAxis(v: Vocabulary, raw: Raw) {
    && Structured(raw)
    && var role, selector := RoleOf(Get(raw.fields, "role").s), Get(raw.fields, "selector");
       && role.Some? && CarriesSelector(role.value) && selector.Record?
       && FromQualifiers(v, Get(selector.fields, FORMAT), selector.fields).Some?
       && CarriesUnknownAxis(v, selector.fields)
  }

  /** These, and no others, are skipped. */
  lemma SkippedExactly(v: Vocabulary, raw: Raw)
    ensures Judge(v, raw).Skipped? <==> NewerRole(raw) || NewerAxis(v, raw)
  {
  }

  /** Such an entry changes neither the outcome of the parse nor its result. */
  lemma ForwardCompatible(v: Vocabulary, before: seq<Raw>, newer: Raw, after: seq<Raw>)
    requires NewerRole(newer) || NewerAxis(v, newer)
    ensures Accepts(v, before + [newer] + after) <==> Accepts(v, before + after)
    ensures Layers(v, before + [newer] + after) == Layers(v, before + after)
  {
    SkippedExactly(v, newer);
    LayersConcat(v, before + [newer], after);
    LayersConcat(v, before, [newer]);
    LayersConcat(v, before, after);
    assert Layers(v, [newer]) == [];
    assert Layers(v, before) + [] == Layers(v, before);
    assert forall e :: e in before + [newer] + after <==> e in before + after || e == newer;
  }

  // --- Lookups ------------------------------------------------------------------------------

  /** `Array.prototype.find`. */
  function Find(layers: seq<Layer>, p: Layer -> bool): Option<Layer> {
    if |layers| == 0 then None else if p(layers[0]) then Some(layers[0]) else Find(layers[1..], p)
  }

  function OfRole(role: Role): Layer -> bool {
    (l: Layer) => l.role == role
  }

  function OfKey(v: Vocabulary, role: Role, key: string): Layer -> bool {
    (l: Layer) => l.role == role && l.selector.Some? && Key(v, l.selector.value) == key
  }

  function SingletonLayer(layers: seq<Layer>, role: Role): Option<Layer> {
    Find(layers, OfRole(role))
  }

  function CodeLayerFor(v: Vocabulary, layers: seq<Layer>, role: Role, selector: Selector): Option<Layer> {
    Find(layers, OfKey(v, role, Key(v, selector)))
  }

  function BrowserLayerFor(v: Vocabulary, layers: seq<Layer>, selector: Selector): Option<Layer> {
    Find(layers, OfKey(v, Browser, Key(v, selector)))
  }

  lemma {:induction false} FindIs(layers: seq<Layer>, p: Layer -> bool, address: (Role, Option<Selector>))
    requires OneAddressEach(layers)
    requires forall l :: l in layers ==> (p(l) <==> Address(l) == address)
    ensures forall l :: Find(layers, p) == Some(l) <==> l in layers && Address(l) == address
  {
    if |layers| > 0 {
      var tail := layers[1..];
      assert forall l :: l in layers <==> l == layers[0] || l in tail;
      forall i, j | 0 <= i < j < |tail| ensures Address(tail[i]) != Address(tail[j]) {
        assert tail[i] == layers[i + 1] && tail[j] == layers[j + 1];
      }
      FindIs(tail, p, address);
      if p(layers[0]) {
        forall l | l in tail ensures Address(l) != address {
          var j :| 0 <= j < |tail| && tail[j] == l;
          assert layers[j + 1] == l;
        }
      }
    }
  }

  /** Every lookup finds the one layer at an address, if there is one. */
  lemma LookupsFindTheAddress(v: Vocabulary, layers: seq<Layer>, role: Role, selector: Selector)
    requires v.Valid() && ValidSelector(v, selector)
    requires OneAddressEach(layers)
    requires forall l :: l in layers ==> ValidLayer(v, l)
    ensures forall l :: CodeLayerFor(v, layers, role, selector) == Some(l) <==>
        l in layers && Address(l) == (role, Some(selector))
    ensures forall l :: BrowserLayerFor(v, layers, selector) == Some(l) <==>
        l in layers && Address(l) == (Browser, Some(selector))
    ensures !CarriesSelector(role) ==>
              forall l :: SingletonLayer(layers, role) == Some(l) <==> l in layers && Address(l) == (role, None)
  {
    forall l | l in layers && l.selector.Some?
      ensures Key(v, l.selector.value) == Key(v, selector) <==> l.selector.value == selector
    {
      KeyInjective(v, l.selector.value, selector);
    }
    var key := Key(v, selector);
    FindIs(layers, OfKey(v, role, key), (role, Some(selector)));
    FindIs(layers, OfKey(v, Browser, key), (Browser, Some(selector)));
    if !CarriesSelector(role) {
      FindIs(layers, OfRole(role), (role, None));
    }
  }

  /** So the order of an index never decides which layer is loaded. */
  lemma LookupsIgnoreOrder(v: Vocabulary, entries: seq<Raw>, others: seq<Layer>, role: Role, selector: Selector)
    requires v.Valid() && ValidSelector(v, selector)
    requires Accepts(v, entries)
    requires multiset(others) == multiset(Layers(v, entries))
    ensures CodeLayerFor(v, others, role, selector) == CodeLayerFor(v, Layers(v, entries), role, selector)
    ensures BrowserLayerFor(v, others, selector) == BrowserLayerFor(v, Layers(v, entries), selector)
    ensures !CarriesSelector(role) ==> SingletonLayer(others, role) == SingletonLayer(Layers(v, entries), role)
  {
    var layers := Layers(v, entries);
    assert forall l :: l in others <==> l in multiset(layers);
    PermutedAddresses(layers, others);
    LookupsFindTheAddress(v, layers, role, selector);
    LookupsFindTheAddress(v, others, role, selector);
    SameAnswer(CodeLayerFor(v, others, role, selector), CodeLayerFor(v, layers, role, selector));
    SameAnswer(BrowserLayerFor(v, others, selector), BrowserLayerFor(v, layers, selector));
    if !CarriesSelector(role) {
      SameAnswer(SingletonLayer(others, role), SingletonLayer(layers, role));
    }
  }

  lemma SameAnswer(a: Option<Layer>, b: Option<Layer>)
    requires forall l :: a == Some(l) <==> b == Some(l)
    ensures a == b
  {
    if a.Some? {
      assert a == Some(a.value);
    } else if b.Some? {
      assert b == Some(b.value);
    }
  }

  /** Two positions of one address are two occurrences of it in any order. */
  lemma PermutedAddresses(layers: seq<Layer>, others: seq<Layer>)
    requires OneAddressEach(layers)
    requires multiset(others) == multiset(layers)
    ensures OneAddressEach(others)
  {
    forall i, j | 0 <= i < j < |others| ensures Address(others[i]) != Address(others[j]) {
      var a, b := others[i], others[j];
      assert a in multiset(layers) && b in multiset(layers);
      var m :| 0 <= m < |layers| && layers[m] == a;
      var n :| 0 <= n < |layers| && layers[n] == b;
      if a == b {
        TwiceIn(others, i, j);
        OnceIn(layers, a);
      }
    }
  }

  lemma TwiceIn(s: seq<Layer>, i: nat, j: nat)
    requires i < j < |s| && s[i] == s[j]
    ensures multiset(s)[s[i]] >= 2
  {
    assert s == s[..j] + [s[j]] + s[j + 1..];
    assert s[i] in s[..j];
  }

  lemma {:induction false} OnceIn(layers: seq<Layer>, l: Layer)
    requires OneAddressEach(layers)
    ensures multiset(layers)[l] <= 1
  {
    if |layers| > 0 {
      var n := |layers| - 1;
      assert layers == layers[..n] + [layers[n]];
      OnceIn(layers[..n], l);
      if layers[n] == l {
        assert forall i :: 0 <= i < n ==> Address(layers[i]) != Address(l);
        assert l !in layers[..n];
      }
    }
  }

  // --- Warming a cache ------------------------------------------------------------------------

  predicate MatchesCode(v: Vocabulary, l: Layer, t: Target) {
    (l.role.Controller? || l.role.Library?) && l.selector.Some? && Matches(v, l.selector.value, t)
  }

  function MatchCodeLayers(v: Vocabulary, layers: seq<Layer>, t: Target): seq<Layer> {
    if |layers| == 0 then []
    else
      var others := MatchCodeLayers(v, layers[1..], t);
      if MatchesCode(v, layers[0], t) then [layers[0]] + others else others
  }

  /** `a` is `b` with some elements left out. */
  predicate Subsequence<T(==)>(a: seq<T>, b: seq<T>) {
    if |a| == 0 then true
    else if |b| == 0 then false
    else (a[0] == b[0] && Subsequence(a[1..], b[1..])) || Subsequence(a, b[1..])
  }

  lemma SubsequenceCons(l: Layer, a: seq<Layer>, b: seq<Layer>)
    requires Subsequence(a, b)
    ensures Subsequence([l] + a, [l] + b) && Subsequence(a, [l] + b)
  {
    assert ([l] + a)[1..] == a && ([l] + b)[1..] == b;
  }

  /** A layer of runtime code, whose selector agrees with the target. */
  ghost predicate Warms(v: Vocabulary, l: Layer, t: Target) {
    && (l.role == Controller || l.role == Library)
    && l.selector.Some? && Agrees(v, l.selector.value, t)
  }

  lemma SubsequenceLater(a: seq<Layer>, l: Layer, b: seq<Layer>)
    requires Subsequence(a, b)
    ensures Subsequence(a, [l] + b)
  {
    assert ([l] + b)[1..] == b;
  }

  /** Each layer that warms the target is returned as often as it is listed, in order, and no other. */
  lemma {:induction false} MatchCodeLayersExactly(v: Vocabulary, layers: seq<Layer>, t: Target)
    ensures forall l :: multiset(MatchCodeLayers(v, layers, t))[l] == if Warms(v, l, t) then multiset(layers)[l] else 0
    ensures Subsequence(MatchCodeLayers(v, layers, t), layers)
  {
    if |layers| > 0 {
      var first, rest := layers[0], layers[1..];
      MatchCodeLayersExactly(v, rest, t);
      if first.selector.Some? {
        AgreesExactly(v, first.selector.value, t);
      }
      assert layers == [first] + rest;
      SubsequenceCons(first, MatchCodeLayers(v, rest, t), rest);
      SubsequenceLater(MatchCodeLayers(v, rest, t), first, rest);
    }
  }

  /** Determining more of a target only adds layers to a warm, in declaration order. */
  lemma {:induction false} MatchCodeLayersGrows(v: Vocabulary, layers: seq<Layer>, t: Target, u: Target)
    requires MoreDetermined(t, u)
    ensures Subsequence(MatchCodeLayers(v, layers, t), MatchCodeLayers(v, layers, u))
  {
    if |layers| > 0 {
      MatchCodeLayersGrows(v, layers[1..], t, u);
      SubsequenceCons(layers[0], MatchCodeLayers(v, layers[1..], t), MatchCodeLayers(v, layers[1..], u));
      if MatchesCode(v, layers[0], t) {
        MatchesGrows(v, layers[0].selector.value, t, u);
      }
    }
  }

  /** A library layer warms a target that leaves its format open; a native one never does. */
  lemma LibraryIsWarmed(v: Vocabulary, library: Layer, native: Layer)
    requires library == Layer(Library, Some(Selector("js", map[])), "b", "i")
    requires native == Layer(Native, Some(Selector("js", map[])), "b", "i")
    ensures MatchCodeLayers(v, [native, library, native], Target(None, map[])) == [library]
  {
    var layers := [native, library, native];
    assert layers[1..] == [library, native] && layers[1..][1..] == [native] && layers[1..][1..][1..] == [];
    AgreesExactly(v, library.selector.value, Target(None, map[]));
    assert MatchCodeLayers(v, [native], Target(None, map[])) == [];
    assert MatchCodeLayers(v, [library, native], Target(None, map[])) == [library] + [];
  }
}
