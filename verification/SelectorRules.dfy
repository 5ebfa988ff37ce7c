/**
 * What the selector's functions compute, said without them: which text a value is normalised
 * to, what a record of axes is read as, and the text of a selector's key.
 */
module SelectorRules {
  import opened ArtifactSelector
  import opened Prelude

  // --- Values ------------------------------------------------------------------------------------

  /** `d` is the lower-case letter of `c`; the Kelvin sign's is `k`. */
  predicate LowersTo(c: char, d: char) {
    if 'A' <= c <= 'Z' then d as int - c as int == 'a' as int - 'A' as int
    else d == if c == '\U{212A}' then 'k' else c
  }

  /** `^[a-z0-9][a-z0-9_.-]*$` */
  ghost predicate Token(x: string) {
    && |x| > 0 && x[0] !in "_.-"
    && forall k :: 0 <= k < |x| ==> 'a' <= x[k] <= 'z' || '0' <= x[k] <= '9' || x[k] in "_.-"
  }

  /** A text that is `x` in lower case between white space; `x` is a token of the axis's form. */
  ghost predicate Spells(v: Vocabulary, axis: string, raw: Raw, x: string) {
    && raw.Str? && Token(x) && (axis in v.names ==> v.hasForm(axis, x))
    && exists i, j, t :: Within(raw.s, i, j, t) && AllLower(t, x)
  }

  ghost predicate AllLower(t: string, x: string) {
    |t| == |x| && forall k :: 0 <= k < |t| ==> LowersTo(t[k], x[k])
  }

  lemma TokenExactly(x: string)
    ensures IsToken(x) <==> Token(x)
  {
    assert forall k :: 0 <= k < |x| ==> x[k] in x;
  }

  /** A value is normalised to the token it spells, and refused where it spells none. */
  lemma NormalizeExactly(v: Vocabulary, axis: string, raw: Raw, x: string)
    ensures NormalizeAxisValue(v, axis, raw) == Some(x) <==> Spells(v, axis, raw, x)
  {
    TokenExactly(x);
    if raw.Str? {
      TrimmedLower(raw.s, x);
    }
  }

  /** What a text is trimmed and lowered to. */
  lemma TrimmedLower(s: string, x: string)
    ensures x == Lower(Trim(s)) <==> exists i, j, t :: Within(s, i, j, t) && AllLower(t, x)
  {
    var i, j := TrimExactly(s);
    LowerExactly(Trim(s), x);
    if m, n, t :| Within(s, m, n, t) && AllLower(t, x) {
      TrimOnly(s, m, n, t);
    }
  }

  lemma LowerExactly(t: string, x: string)
    ensures x == Lower(t) <==> AllLower(t, x)
  {
    if AllLower(t, x) {
      forall k | 0 <= k < |t| ensures Lower(t)[k] == x[k] {
        assert LowersTo(t[k], x[k]);
      }
    }
  }

  // --- Selectors -----------------------------------------------------------------------------------

  /** The field is there, and is not the empty text. */
  ghost predicate States(fields: map<string, Raw>, axis: string) {
    axis in fields && fields[axis] != Undefined && fields[axis] != Str("")
  }

  /** The format and each axis stated, and no other, spell the selector's values. */
  ghost predicate ReadsAs(v: Vocabulary, format: Raw, fields: map<string, Raw>, s: Selector) {
    && Spells(v, "format", format, s.format)
    && (forall a :: a in s.axes <==> a in v.names && States(fields, a))
    && (forall a :: a in s.axes ==> Spells(v, a, fields[a], s.axes[a]))
  }

  lemma ReadSpelled(v: Vocabulary, format: Raw, fields: map<string, Raw>, s: Selector)
    requires FromQualifiers(v, format, fields) == Some(s)
    ensures ReadsAs(v, format, fields, s)
  {
    NormalizeExactly(v, "format", format, s.format);
    forall a | a in s.axes ensures Spells(v, a, fields[a], s.axes[a]) {
      NormalizeExactly(v, a, fields[a], s.axes[a]);
    }
  }

  lemma SpelledRead(v: Vocabulary, format: Raw, fields: map<string, Raw>, s: Selector)
    requires ReadsAs(v, format, fields, s)
    ensures FromQualifiers(v, format, fields) == Some(s)
  {
    NormalizeExactly(v, "format", format, s.format);
    forall a | a in s.axes ensures NormalizeAxisValue(v, a, Get(fields, a)) == Some(s.axes[a]) {
      NormalizeExactly(v, a, fields[a], s.axes[a]);
    }
    AxesRead(v, fields, v.names, ReadAxes(v, fields, v.names), s.axes);
  }

  lemma AxesRead(v: Vocabulary, fields: map<string, Raw>, names: seq<string>, axes: Option<map<string, string>>,
          stated: map<string, string>)
    requires Reads(v, fields, names, axes)
    requires forall a :: a in stated <==> a in names && States(fields, a)
    requires forall a :: a in stated ==> NormalizeAxisValue(v, a, Get(fields, a)) == Some(stated[a])
    ensures axes == Some(stated)
  {
    if axes.Some? {
      forall a ensures a in axes.value <==> a in stated {
        assert States(fields, a) <==> !Omitted(Get(fields, a));
      }
      SameAxes(axes.value, stated);
    }
  }

  /** Qualifiers are read as a selector exactly when they spell it. */
  lemma QualifiersExactly(v: Vocabulary, format: Raw, fields: map<string, Raw>, s: Selector)
    ensures FromQualifiers(v, format, fields) == Some(s) <==> ReadsAs(v, format, fields, s)
  {
    if FromQualifiers(v, format, fields) == Some(s) {
      ReadSpelled(v, format, fields, s);
    }
    if ReadsAs(v, format, fields, s) {
      SpelledRead(v, format, fields, s);
    }
  }

  function FieldAt(fields: map<string, Raw>, key: string): Raw {
    if key in fields then fields[key] else Undefined
  }

  /**
   * A published selector is one of this runtime's exactly when it is an object that spells it
   * and has no other key; it is for a newer runtime when it spells one and has another key.
   */
  lemma PublishedExactly(v: Vocabulary, value: Raw)
    ensures forall s :: NormalizeSelector(v, value) == Known(s) <==>
              && value.Record? && ReadsAs(v, FieldAt(value.fields, "format"), value.fields, s)
              && forall k :: k in value.fields ==> k == "format" || k in v.names
    ensures NormalizeSelector(v, value) == ForNewerRuntime <==>
              && value.Record? && (exists s :: ReadsAs(v, FieldAt(value.fields, "format"), value.fields, s))
              && exists k :: k in value.fields && k != "format" && k !in v.names
  {
    if value.Record? {
      var format := FieldAt(value.fields, "format");
      forall s ensures FromQualifiers(v, format, value.fields) == Some(s) <==> ReadsAs(v, format, value.fields, s) {
        QualifiersExactly(v, format, value.fields, s);
      }
      assert FromQualifiers(v, format, value.fields).Some? ==>
          ReadsAs(v, format, value.fields, FromQualifiers(v, format, value.fields).value);
    }
  }

  // --- The text of a key ---------------------------------------------------------------------------

  /** The first difference: `a` ends there, or has the smaller character. */
  predicate ApartAt(a: string, b: string, n: nat) {
    n <= |a| && n < |b| && a[..n] == b[..n] && (n == |a| || a[n] < b[n])
  }

  lemma {:induction false} BeforeExactly(a: string, b: string)
    ensures Before(a, b) <==> exists n: nat :: ApartAt(a, b, n)
  {
    if |a| > 0 && |b| > 0 && a[0] == b[0] {
      BeforeExactly(a[1..], b[1..]);
      if n: nat :| ApartAt(a[1..], b[1..], n) {
        assert a[..n + 1] == [a[0]] + a[1..][..n] && b[..n + 1] == [b[0]] + b[1..][..n];
        assert ApartAt(a, b, n + 1);
      }
      if n: nat :| ApartAt(a, b, n) {
        assert n > 0;
        assert a[1..][..n - 1] == a[..n][1..] && b[1..][..n - 1] == b[..n][1..];
        assert ApartAt(a[1..], b[1..], n - 1);
      }
    } else if |b| > 0 {
      if |a| == 0 || a[0] < b[0] {
        assert ApartAt(a, b, 0);
      } else {
        forall n: nat ensures !ApartAt(a, b, n) {
          if 0 < n <= |a| && n < |b| {
            assert a[..n][0] == a[0] && b[..n][0] == b[0];
          }
        }
      }
    }
  }

  lemma {:induction false} OnceEach(s: seq<string>)
    requires Distinct(s)
    ensures forall x :: multiset(s)[x] <= 1
  {
    if |s| > 0 {
      var n := |s| - 1;
      assert s == s[..n] + [s[n]];
      OnceEach(s[..n]);
      assert s[n] !in s[..n];
    }
  }

  lemma {:induction false} AxisPairsDistinct(s: Selector, names: seq<string>)
    requires Distinct(names) && forall n :: n in names ==> '=' !in n
    ensures Distinct(AxisPairs(s, names))
  {
    if |names| > 0 {
      var first, rest := names[0], names[1..];
      AxisPairsDistinct(s, rest);
      AxisPairsHold(s, rest);
      if first in s.axes && Pair(first, s.axes[first]) in AxisPairs(s, rest) {
        var b :| b in rest && b in s.axes && Pair(first, s.axes[first]) == Pair(b, s.axes[b]);
        PairUnique(first, s.axes[first], b, s.axes[b]);
      }
    }
  }

  lemma PairsDistinct(v: Vocabulary, s: Selector)
    requires v.Valid()
    ensures Distinct(Pairs(v, s))
  {
    AxisPairsDistinct(s, v.names);
    AxisPairsHold(s, v.names);
    if Pair("format", s.format) in AxisPairs(s, v.names) {
      var b :| b in v.names && b in s.axes && Pair("format", s.format) == Pair(b, s.axes[b]);
      PairUnique("format", s.format, b, s.axes[b]);
    }
  }

  lemma {:induction false} AscendingStrictly(s: seq<string>, i: nat, j: nat)
    requires Ascending(s) && (forall x :: multiset(s)[x] <= 1) && i < j < |s|
    ensures Before(s[i], s[j])
  {
    TailMultiset(s);
    if i == 0 {
      assert s[j] in s[1..] by {
        assert s[1..][j - 1] == s[j];
      }
      assert s[0] != s[j] by {
        assert multiset(s[1..])[s[j]] >= 1;
      }
      assert s[j] in s;
    } else {
      AscendingStrictly(s[1..], i - 1, j - 1);
    }
  }

  ghost predicate Precedes(a: string, b: string) {
    exists n: nat :: ApartAt(a, b, n)
  }

  ghost predicate StrictlyAscends(s: seq<string>) {
    forall i, j :: 0 <= i < j < |s| ==> Precedes(s[i], s[j])
  }

  /** A part states the format, or an axis the selector has. */
  ghost predicate StatesPart(v: Vocabulary, s: Selector, p: string) {
    p == "format=" + s.format || exists a :: a in v.names && a in s.axes && p == a + "=" + s.axes[a]
  }

  /**
   * The key is the selector's `axis=value` parts joined by `;`, each once, in ascending order
   * of characters.
   */
  lemma KeyExactly(v: Vocabulary, s: Selector) returns (parts: seq<string>)
    requires v.Valid()
    ensures Key(v, s) == Join(parts, ';')
    ensures forall p :: p in parts <==> StatesPart(v, s, p)
    ensures StrictlyAscends(parts)
  {
    parts := SortStrings(Pairs(v, s));
    PairsDistinct(v, s);
    PartsStated(v, s);
    SortedStrictly(Pairs(v, s));
  }

  lemma SortedStrictly(s: seq<string>)
    requires Distinct(s)
    ensures forall p :: p in SortStrings(s) <==> p in s
    ensures StrictlyAscends(SortStrings(s))
  {
    var sorted := SortStrings(s);
    SortKeeps(s);
    SortAscending(s);
    OnceEach(s);
    forall p ensures p in sorted <==> p in s {
      assert p in sorted <==> p in multiset(sorted);
      assert p in s <==> p in multiset(s);
    }
    SortedAscends(sorted);
  }

  lemma SortedAscends(sorted: seq<string>)
    requires Ascending(sorted) && forall x :: multiset(sorted)[x] <= 1
    ensures StrictlyAscends(sorted)
  {
    forall i, j | 0 <= i < j < |sorted| ensures Precedes(sorted[i], sorted[j]) {
      AscendingStrictly(sorted, i, j);
      BeforeExactly(sorted[i], sorted[j]);
    }
  }

  lemma PartsStated(v: Vocabulary, s: Selector)
    ensures forall p :: p in Pairs(v, s) <==> StatesPart(v, s, p)
  {
    AxisPairsHold(s, v.names);
    assert Pair("format", s.format) == "format=" + s.format;
  }

  // --- By example ------------------------------------------------------------------------------------

  const PLATFORM := Vocabulary(["os", "arch"], (axis, value) => true)

  const LINUX := Selector("js", map["os" := "linux", "arch" := "x64"])

  lemma LinuxPairs()
    ensures PLATFORM.Valid() && Pairs(PLATFORM, LINUX) == ["format=js", "os=linux", "arch=x64"]
  {
    assert "os"[0] != "arch"[0] && "os"[0] != "format"[0] && "arch"[0] != "format"[0];
    assert ["os", "arch"][1..] == ["arch"] && ["arch"][1..] == [];
    assert LINUX.axes["os"] == "linux" && LINUX.axes["arch"] == "x64";
    assert Pair("arch", "x64") == "arch=x64" && Pair("os", "linux") == "os=linux" && Pair(FORMAT, "js") == "format=js";
    assert AxisPairs(LINUX, []) == [];
    assert AxisPairs(LINUX, ["arch"]) == ["arch=x64"] + [];
    assert AxisPairs(LINUX, ["os", "arch"]) == ["os=linux"] + ["arch=x64"];
  }

  lemma LinuxSorted()
    ensures SortStrings(["format=js", "os=linux", "arch=x64"]) == ["arch=x64", "format=js", "os=linux"]
  {
    var pairs, rest, last := ["format=js", "os=linux", "arch=x64"], ["os=linux", "arch=x64"], ["arch=x64"];
    assert pairs[1..] == rest && rest[1..] == last && last[1..] == [];
    assert Before("arch=x64", "os=linux") && Before("arch=x64", "format=js") && Before("format=js", "os=linux");
    BeforeTotal("format=js", "os=linux");
    assert SortStrings(last) == last;
    assert SortStrings(rest) == ["arch=x64"] + InsertString("os=linux", []);
    var sorted := ["arch=x64", "os=linux"];
    assert SortStrings(rest) == sorted && sorted[1..] == ["os=linux"];
    assert InsertString("format=js", ["os=linux"]) == ["format=js"] + ["os=linux"];
  }

  lemma KeyByExample()
    ensures PLATFORM.Valid() && Key(PLATFORM, LINUX) == "arch=x64;format=js;os=linux"
  {
    LinuxPairs();
    LinuxSorted();
    JoinThree("arch=x64", "format=js", "os=linux");
    LinuxText();
  }

  lemma LinuxText()
    ensures "arch=x64" + ";" + "format=js" + ";" + "os=linux" == "arch=x64;format=js;os=linux"
  {
  }

  lemma JoinThree(a: string, b: string, c: string)
    ensures Join([a, b, c], ';') == a + ";" + b + ";" + c
  {
    var parts := [a, b, c];
    assert parts[1..] == [b, c] && parts[1..][1..] == [c];
    assert Join([b, c], ';') == b + ";" + c;
  }

  lemma ValueByExample()
    ensures NormalizeAxisValue(PLATFORM, "os", Str(" Linux-\U{212A}\n")) == Some("linux-k")
  {
    TrimByExample();
    LowerByExample();
    TokenExactly("linux-k");
  }

  lemma TrimByExample()
    ensures Trim(" Linux-\U{212A}\n") == "Linux-\U{212A}"
  {
    var s, t := " Linux-\U{212A}\n", "Linux-\U{212A}";
    assert s[1..8] == t;
    assert t[0] !in WHITE_SPACE && t[6] !in WHITE_SPACE && s[0] in WHITE_SPACE && s[8] in WHITE_SPACE;
    TrimOnly(s, 1, 8, t);
  }

  lemma LowerByExample()
    ensures Lower("Linux-\U{212A}") == "linux-k"
  {
  }

  lemma NoTokenByExample()
    ensures NormalizeAxisValue(PLATFORM, "os", Str("-linux")) == None
  {
    var s := "-linux";
    assert s[0..6] == s && s[0] !in WHITE_SPACE && s[5] !in WHITE_SPACE;
    assert Within(s, 0, 6, s);
    TrimOnly(s, 0, 6, s);
    assert Lower(s)[0] == '-';
  }
}
