/**
 * What the parse of a layer index makes of one entry, said without its functions: which
 * entries are understood and as which layer, which are skipped, and that all others are
 * refused.
 */
module LayerRules {
  import opened ArtifactLayerIndex
  import opened ArtifactSelector
  import opened Prelude
  import opened SelectorRules

  const HEX: char -> bool := c => c in "0123456789abcdef"

  const BASE64_URL: char -> bool := c => 'a' <= c <= 'z' || 'A' <= c <= 'Z' || '0' <= c <= '9' || c in "_-"

  ghost predicate Digest(s: string, prefix: string, count: nat, alphabet: char -> bool) {
    && |s| == |prefix| + count && s[..|prefix|] == prefix
    && forall i :: |prefix| <= i < |s| ==> alphabet(s[i])
  }

  lemma HexExactly(c: char)
    ensures IsHex(c) <==> HEX(c)
  {
    var all := "0123456789abcdef";
    assert forall i :: 0 <= i < |all| ==> IsHex(all[i]);
    if '0' <= c <= '9' {
      assert all[c as int - '0' as int] == c;
    } else if 'a' <= c <= 'f' {
      assert all[c as int - 'a' as int + 10] == c;
    }
  }

  lemma DigestsExactly(s: string)
    ensures IsBlobDigest(s) <==> Digest(s, "sha256:", 64, HEX)
    ensures IsContentDigest(s) <==> Digest(s, "sha256-", 43, BASE64_URL)
  {
    assert |"sha256:"| == 7 && |"sha256-"| == 7;
    forall i | 0 <= i < |s| ensures (IsHex(s[i]) <==> HEX(s[i])) && (IsBase64Url(s[i]) <==> BASE64_URL(s[i])) {
      HexExactly(s[i]);
    }
  }

  /** The names of the roles, and whether a layer of the role has a selector. */
  const ROLES: map<string, (Role, bool)> := map[
    "controller" := (Controller, true), "library" := (Library, true), "native" := (Native, true),
    "browser" := (Browser, true), "assets" := (Assets, false), "common" := (Common, false)]

  lemma RolesExactly(name: string)
    ensures RoleOf(name).Some? <==> name in ROLES
    ensures name in ROLES ==> RoleOf(name) == Some(ROLES[name].0) && (CarriesSelector(ROLES[name].0) <==> ROLES[name].1)
  {
    if name in ROLES {
      assert RoleOf(name) == Some(ROLES[name].0);
    }
  }

  /** An object with a role, and two digests. */
  ghost predicate Entry(raw: Raw, role: string, blob: string, integrity: string) {
    && raw.Record? && role != ""
    && FieldAt(raw.fields, "role") == Str(role)
    && FieldAt(raw.fields, "blob") == Str(blob) && Digest(blob, "sha256:", 64, HEX)
    && FieldAt(raw.fields, "integrity") == Str(integrity) && Digest(integrity, "sha256-", 43, BASE64_URL)
  }

  ghost predicate IsEntry(raw: Raw) {
    exists role, blob, integrity :: Entry(raw, role, blob, integrity)
  }

  lemma StructuredExactly(raw: Raw)
    ensures Structured(raw) <==> IsEntry(raw)
    ensures Structured(raw) ==>
              Entry(raw, Get(raw.fields, "role").s, Get(raw.fields, "blob").s, Get(raw.fields, "integrity").s)
  {
    if raw.Record? {
      if Get(raw.fields, "blob").Str? {
        DigestsExactly(Get(raw.fields, "blob").s);
      }
      if Get(raw.fields, "integrity").Str? {
        DigestsExactly(Get(raw.fields, "integrity").s);
      }
    }
    if Structured(raw) {
      assert Entry(raw, Get(raw.fields, "role").s, Get(raw.fields, "blob").s, Get(raw.fields, "integrity").s);
    }
  }

  /** The selector an entry of the role must have: none, or one spelled with known axes only. */
  ghost predicate SelectorIs(v: Vocabulary, raw: Raw, carries: bool, selector: Option<Selector>)
    requires raw.Record?
  {
    var written := FieldAt(raw.fields, "selector");
    match selector
    case None => !carries && written == Undefined
    case Some(s) =>
      && carries && written.Record? && ReadsAs(v, FieldAt(written.fields, "format"), written.fields, s)
      && forall k :: k in written.fields ==> k == "format" || k in v.names
  }

  /** An entry, and what the role asks of its selector. */
  ghost predicate Describes(v: Vocabulary, raw: Raw, role: string, l: Layer) {
    && Entry(raw, role, l.blob, l.integrity) && role in ROLES && l.role == ROLES[role].0
    && SelectorIs(v, raw, ROLES[role].1, l.selector)
  }

  lemma JudgedSelector(v: Vocabulary, raw: Raw, role: string, s: Selector)
    requires Structured(raw) && role == Get(raw.fields, "role").s && role in ROLES && ROLES[role].1
    ensures var l := Layer(ROLES[role].0, Some(s), Get(raw.fields, "blob").s, Get(raw.fields, "integrity").s);
            Judge(v, raw) == Understood(l) <==> SelectorIs(v, raw, true, Some(s))
    ensures Judge(v, raw) == Skipped <==> ForNewer(v, raw)
  {
    RolesExactly(role);
    PublishedExactly(v, Get(raw.fields, "selector"));
  }

  lemma JudgedSingleton(v: Vocabulary, raw: Raw, role: string)
    requires Structured(raw) && role == Get(raw.fields, "role").s && role in ROLES && !ROLES[role].1
    ensures var l := Layer(ROLES[role].0, None, Get(raw.fields, "blob").s, Get(raw.fields, "integrity").s);
            Judge(v, raw) == if SelectorIs(v, raw, false, None) then Understood(l) else Malformed
  {
    RolesExactly(role);
  }

  lemma UnderstoodDescribes(v: Vocabulary, raw: Raw, l: Layer)
    requires Judge(v, raw) == Understood(l)
    ensures Describes(v, raw, Get(raw.fields, "role").s, l)
  {
    var role := Get(raw.fields, "role").s;
    StructuredExactly(raw);
    RolesExactly(role);
    if ROLES[role].1 {
      JudgedSelector(v, raw, role, l.selector.value);
    } else {
      JudgedSingleton(v, raw, role);
    }
  }

  lemma DescribesUnderstood(v: Vocabulary, raw: Raw, role: string, l: Layer)
    requires Describes(v, raw, role, l)
    ensures Judge(v, raw) == Understood(l)
  {
    StructuredExactly(raw);
    if l.selector.Some? {
      JudgedSelector(v, raw, role, l.selector.value);
    } else {
      JudgedSingleton(v, raw, role);
    }
  }

  /** An entry is understood as a layer exactly when it has the layer's role, digests and selector. */
  lemma UnderstoodExactly(v: Vocabulary, raw: Raw, l: Layer)
    ensures Judge(v, raw) == Understood(l) <==> exists role :: Describes(v, raw, role, l)
  {
    if Judge(v, raw) == Understood(l) {
      UnderstoodDescribes(v, raw, l);
    }
    if role :| Describes(v, raw, role, l) {
      DescribesUnderstood(v, raw, role, l);
    }
  }

  ghost predicate ForNewer(v: Vocabulary, raw: Raw)
    requires raw.Record?
  {
    var written := FieldAt(raw.fields, "selector");
    && written.Record? && (exists s :: ReadsAs(v, FieldAt(written.fields, "format"), written.fields, s))
    && exists k :: k in written.fields && k != "format" && k !in v.names
  }

  /** An entry is skipped exactly when its role is unknown, or its selector is spelled with a further axis. */
  lemma SkippedOnly(v: Vocabulary, raw: Raw)
    ensures Judge(v, raw) == Skipped <==>
            && IsEntry(raw)
            && exists role :: FieldAt(raw.fields, "role") == Str(role)
                              && (role !in ROLES || (ROLES[role].1 && ForNewer(v, raw)))
  {
    StructuredExactly(raw);
    if Structured(raw) {
      var role := Get(raw.fields, "role").s;
      RolesExactly(role);
      if role in ROLES {
        if ROLES[role].1 {
          JudgedSelector(v, raw, role, Selector("", map[]));
        } else {
          JudgedSingleton(v, raw, role);
        }
      }
    }
  }
}
