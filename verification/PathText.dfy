/** Paths into a manifest, and the texts the analyzer writes them as: `a.b[0]`. */
module PathText {
  import opened Prelude

  datatype Key = Name(name: string) | Index(index: nat)

  type Path = seq<Key>

  function Decimal(n: nat): (r: string) {
    (if n < 10 then "" else Decimal(n / 10)) + [('0' as int + n % 10) as char]
  }

  /** The text of a child, beneath a container that has a text of its own. */
  function Under(at: string, k: Key): string {
    match k
    case Name(name) => at + "." + name
    case Index(index) => at + "[" + Decimal(index) + "]"
  }

  /** The same where the container may be the root, whose text is empty. */
  function Child(at: string, k: Key): string {
    if at == "" && k.Name? then k.name else Under(at, k)
  }

  function TextUnder(at: string, keys: Path): string
    decreases |keys|
  {
    if |keys| == 0 then at else TextUnder(Under(at, keys[0]), keys[1..])
  }

  function TextOf(keys: Path): string {
    if |keys| == 0 then "" else Child(TextOf(keys[..|keys| - 1]), keys[|keys| - 1])
  }

  // --- Texts tell paths apart -----------------------------------------------------------------------

  predicate PlainName(name: string) {
    |name| > 0 && '.' !in name && ']' !in name
  }

  predicate PlainPath(keys: Path) {
    forall i :: 0 <= i < |keys| && keys[i].Name? ==> PlainName(keys[i].name)
  }

  lemma {:induction false} DecimalDigits(n: nat)
    ensures |Decimal(n)| > 0 && forall i :: 0 <= i < |Decimal(n)| ==> '0' <= Decimal(n)[i] <= '9'
  {
    if n >= 10 {
      DecimalDigits(n / 10);
    }
  }

  lemma {:induction false} DecimalInjective(n: nat, m: nat)
    requires Decimal(n) == Decimal(m)
    ensures n == m
  {
    var s, t := Decimal(n), Decimal(m);
    assert s[|s| - 1] == ('0' as int + n % 10) as char && t[|t| - 1] == ('0' as int + m % 10) as char;
    assert s[..|s| - 1] == (if n < 10 then "" else Decimal(n / 10))
        && t[..|t| - 1] == (if m < 10 then "" else Decimal(m / 10));
    DecimalDigits(n / 10);
    DecimalDigits(m / 10);
    if n >= 10 {
      DecimalInjective(n / 10, m / 10);
    }
  }

  /** A text is cut at its last `c` in one way. */
  lemma LastCut(u: string, n: string, v: string, m: string, c: char)
    requires c !in n && c !in m && u + [c] + n == v + [c] + m
    ensures u == v && n == m
  {
    var s, t := u + [c] + n, v + [c] + m;
    assert s[|u|] == c && t[|v|] == c;
    assert forall i :: |u| < i < |s| ==> s[i] == n[i - |u| - 1];
    assert forall i :: |v| < i < |t| ==> t[i] == m[i - |v| - 1];
    assert |u| == |v|;
    assert u == s[..|u|] && v == t[..|v|];
    assert n == s[|u| + 1..] && m == t[|v| + 1..];
  }

  lemma ChildEnd(at: string, k: Key)
    requires k.Name? ==> PlainName(k.name)
    ensures |Child(at, k)| > 0
    ensures Child(at, k)[|Child(at, k)| - 1] == ']' <==> k.Index?
  {
    if k.Name? {
      assert Child(at, k)[|Child(at, k)| - 1] == k.name[|k.name| - 1];
      assert k.name[|k.name| - 1] in k.name;
    }
  }

  lemma DotInside(at: string, name: string)
    requires PlainName(name)
    ensures '.' in Child(at, Name(name)) <==> at != ""
  {
    if at != "" {
      assert Child(at, Name(name))[|at|] == '.';
    }
  }

  lemma ChildInjective(at: string, k: Key, other: string, l: Key)
    requires (k.Name? ==> PlainName(k.name)) && (l.Name? ==> PlainName(l.name))
    requires Child(at, k) == Child(other, l)
    ensures at == other && k == l
  {
    ChildEnd(at, k);
    ChildEnd(other, l);
    if k.Index? {
      var n, m := Decimal(k.index) + "]", Decimal(l.index) + "]";
      DecimalDigits(k.index);
      DecimalDigits(l.index);
      assert at + "[" + n == Child(at, k) && other + "[" + m == Child(other, l);
      LastCut(at, n, other, m, '[');
      assert Decimal(k.index) == n[..|n| - 1] && Decimal(l.index) == m[..|m| - 1];
      DecimalInjective(k.index, l.index);
    } else {
      DotInside(at, k.name);
      DotInside(other, l.name);
      if at != "" {
        LastCut(at, k.name, other, l.name, '.');
      }
    }
  }

  /** Paths of plain names have texts of their own. */
  lemma {:induction false} TextInjective(p: Path, q: Path)
    requires PlainPath(p) && PlainPath(q) && TextOf(p) == TextOf(q)
    ensures p == q
    decreases |p|
  {
    if |p| > 0 {
      ChildEnd(TextOf(p[..|p| - 1]), p[|p| - 1]);
    }
    if |q| > 0 {
      ChildEnd(TextOf(q[..|q| - 1]), q[|q| - 1]);
    }
    if |p| > 0 && |q| > 0 {
      ChildInjective(TextOf(p[..|p| - 1]), p[|p| - 1], TextOf(q[..|q| - 1]), q[|q| - 1]);
      TextInjective(p[..|p| - 1], q[..|q| - 1]);
      assert p == p[..|p| - 1] + [p[|p| - 1]] && q == q[..|q| - 1] + [q[|q| - 1]];
    }
  }

  // --- Texts are read back ---------------------------------------------------------------------------

  predicate Separates(c: char) {
    c == '.' || c == '[' || c == ']'
  }

  /** Where the characters of a name end. */
  function NameEnd(s: string): (n: nat)
    ensures n <= |s| && (forall i :: 0 <= i < n ==> !Separates(s[i])) && (n < |s| ==> Separates(s[n]))
  {
    if |s| == 0 || Separates(s[0]) then 0 else 1 + NameEnd(s[1..])
  }

  function DigitsEnd(s: string): (n: nat)
    ensures n <= |s| && (forall i :: 0 <= i < n ==> '0' <= s[i] <= '9') && (n < |s| ==> !('0' <= s[n] <= '9'))
  {
    if |s| == 0 || !('0' <= s[0] <= '9') then 0 else 1 + DigitsEnd(s[1..])
  }

  /** `Number(digits)` */
  function FromDecimal(s: string): nat
    requires forall i :: 0 <= i < |s| ==> '0' <= s[i] <= '9'
  {
    if |s| == 0 then 0 else FromDecimal(s[..|s| - 1]) * 10 + (s[|s| - 1] as int - '0' as int)
  }

  /** `parseKeys`: names and bracketed numbers, whatever stands between them. */
  function ParseKeys(s: string): Path
    decreases |s|
  {
    if |s| == 0 then []
    else if !Separates(s[0]) then [Name(s[..NameEnd(s)])] + ParseKeys(s[NameEnd(s)..])
    else
      var n := DigitsEnd(s[1..]);
      if s[0] == '[' && n > 0 && n + 1 < |s| && s[n + 1] == ']' then
        [Index(FromDecimal(s[1..][..n]))] + ParseKeys(s[n + 2..])
      else ParseKeys(s[1..])
  }

  predicate ReadableName(name: string) {
    |name| > 0 && forall i :: 0 <= i < |name| ==> name[i] != '.' && name[i] != '[' && name[i] != ']'
  }

  predicate Readable(keys: Path) {
    forall i :: 0 <= i < |keys| && keys[i].Name? ==> ReadableName(keys[i].name)
  }

  lemma FromDecimalSnoc(s: string, digit: nat)
    requires digit < 10 && forall i :: 0 <= i < |s| ==> '0' <= s[i] <= '9'
    ensures var t := s + [('0' as int + digit) as char];
            (forall i :: 0 <= i < |t| ==> '0' <= t[i] <= '9') && FromDecimal(t) == FromDecimal(s) * 10 + digit
  {
    var t := s + [('0' as int + digit) as char];
    assert t[..|t| - 1] == s;
  }

  lemma DecimalSnoc(n: nat) returns (tens: nat, digit: nat)
    ensures digit < 10 && n == 10 * tens + digit && (tens < n || n == 0)
    ensures Decimal(n) == (if tens == 0 then "" else Decimal(tens)) + [('0' as int + digit) as char]
  {
    tens, digit := n / 10, n % 10;
  }

  lemma {:induction false} DecimalRead(n: nat)
    ensures |Decimal(n)| > 0 && forall i :: 0 <= i < |Decimal(n)| ==> '0' <= Decimal(n)[i] <= '9'
    ensures FromDecimal(Decimal(n)) == n
  {
    var tens, digit := DecimalSnoc(n);
    if tens > 0 {
      DecimalRead(tens);
      FromDecimalSnoc(Decimal(tens), digit);
    } else {
      FromDecimalSnoc("", digit);
    }
  }

  /** What a path's text is beneath a container: each key with its separators. */
  function Suffix(keys: Path): string {
    if |keys| == 0 then "" else Under("", keys[0]) + Suffix(keys[1..])
  }

  lemma SuffixFirst(k: Key, rest: Path)
    ensures Suffix([k] + rest) == Under("", k) + Suffix(rest)
  {
    assert ([k] + rest)[1..] == rest;
  }

  lemma {:induction false} SuffixSnoc(keys: Path, k: Key)
    ensures Suffix(keys + [k]) == Suffix(keys) + Under("", k)
  {
    if |keys| == 0 {
      SuffixFirst(k, []);
      assert [] + [k] == [k] + [];
      AddNothing(Under("", k));
    } else {
      var first, rest := keys[0], keys[1..];
      SuffixSnoc(rest, k);
      assert keys + [k] == [first] + (rest + [k]);
      SuffixFirst(first, rest + [k]);
      Regroup3(Under("", first), Suffix(rest), Under("", k));
    }
  }

  lemma SuffixSeparated(keys: Path)
    ensures Suffix(keys) == "" || Separates(Suffix(keys)[0])
  {
  }

  lemma ParseName(name: string, rest: string)
    requires ReadableName(name) && (rest == "" || Separates(rest[0]))
    ensures ParseKeys(name + rest) == [Name(name)] + ParseKeys(rest)
  {
    var s := name + rest;
    assert NameEnd(s) == |name|;
    assert s[..|name|] == name && s[|name|..] == rest;
  }

  lemma DigitsStop(d: string, rest: string)
    requires (forall i :: 0 <= i < |d| ==> '0' <= d[i] <= '9') && |rest| > 0 && !('0' <= rest[0] <= '9')
    ensures DigitsEnd(d + rest) == |d|
  {
    var s := d + rest;
    assert forall i :: 0 <= i < |d| ==> s[i] == d[i];
    assert s[|d|] == rest[0];
  }

  lemma ParseBracket(d: string, rest: string)
    requires |d| > 0 && forall i :: 0 <= i < |d| ==> '0' <= d[i] <= '9'
    ensures ParseKeys("[" + (d + ("]" + rest))) == [Index(FromDecimal(d))] + ParseKeys(rest)
  {
    var inner := d + ("]" + rest);
    var s := "[" + inner;
    DigitsStop(d, "]" + rest);
    assert s[1..] == inner && s[0] == '[' && s[|d| + 1] == ']';
    assert inner[..|d|] == d && s[|d| + 2..] == rest;
  }

  lemma BracketIs(index: nat)
    ensures Under("", Index(index)) == "[" + Decimal(index) + "]"
  {
  }

  lemma ParseIndex(index: nat, rest: string)
    ensures ParseKeys(Under("", Index(index)) + rest) == [Index(index)] + ParseKeys(rest)
  {
    DecimalRead(index);
    ParseBracket(Decimal(index), rest);
    BracketIs(index);
    Regroup4("[", Decimal(index), "]", rest);
  }

  lemma ParseDotted(name: string, rest: string)
    requires ReadableName(name) && (rest == "" || Separates(rest[0]))
    ensures ParseKeys("" + "." + name + rest) == [Name(name)] + ParseKeys(rest)
  {
    var s := "" + "." + name + rest;
    assert s[0] == '.' && s[1..] == name + rest;
    ParseName(name, rest);
  }

  /** A key with its separator is read, and what follows is read on its own. */
  lemma ParseUnder(k: Key, rest: string)
    requires (k.Name? ==> ReadableName(k.name)) && (rest == "" || Separates(rest[0]))
    ensures ParseKeys(Under("", k) + rest) == [k] + ParseKeys(rest)
    ensures ParseKeys(Child("", k) + rest) == [k] + ParseKeys(rest)
  {
    match k
    case Name(name) =>
      ParseDotted(name, rest);
      ParseName(name, rest);
    case Index(index) => ParseIndex(index, rest);
  }

  lemma {:induction false} ParseSuffix(keys: Path)
    requires Readable(keys)
    ensures ParseKeys(Suffix(keys)) == keys
  {
    if |keys| > 0 {
      ParseSuffix(keys[1..]);
      SuffixSeparated(keys[1..]);
      ParseUnder(keys[0], Suffix(keys[1..]));
    }
  }

  lemma ChildSplits(at: string, k: Key)
    requires |at| > 0
    ensures Child(at, k) == at + Under("", k)
  {
  }

  lemma {:induction false} TextIs(keys: Path)
    requires |keys| > 0 && Readable(keys)
    ensures TextOf(keys) == Child("", keys[0]) + Suffix(keys[1..])
    ensures |TextOf(keys)| > 0
  {
    var n := |keys| - 1;
    if n == 0 {
      assert keys[..0] == [];
      AddNothing(Child("", keys[0]));
    } else {
      var init := keys[..n];
      TextIs(init);
      assert init[1..] + [keys[n]] == keys[1..];
      SuffixSnoc(init[1..], keys[n]);
      ChildSplits(TextOf(init), keys[n]);
      Regroup3(Child("", keys[0]), Suffix(init[1..]), Under("", keys[n]));
    }
  }

  lemma {:induction false} ParsedReadable(s: string)
    ensures Readable(ParseKeys(s))
    decreases |s|
  {
    if |s| > 0 {
      var n := DigitsEnd(s[1..]);
      if !Separates(s[0]) {
        ParsedReadable(s[NameEnd(s)..]);
        assert NameEnd(s) > 0;
      } else if s[0] == '[' && n > 0 && n + 1 < |s| && s[n + 1] == ']' {
        ParsedReadable(s[n + 2..]);
      } else {
        ParsedReadable(s[1..]);
      }
    }
  }

  /** A path's text is parsed to the path exactly when no name in it is empty or holds a separator. */
  lemma TextReadExactly(keys: Path)
    ensures ParseKeys(TextOf(keys)) == keys <==> Readable(keys)
  {
    ParsedReadable(TextOf(keys));
    if Readable(keys) && |keys| > 0 {
      TextIs(keys);
      ParseSuffix(keys[1..]);
      SuffixSeparated(keys[1..]);
      ParseUnder(keys[0], Suffix(keys[1..]));
    }
  }

  /** A path's text, by example. */
  lemma TextByExample()
    ensures TextOf([Name("a"), Name("b"), Index(10), Index(2)]) == "a.b[10][2]"
  {
    var p := [Name("a"), Name("b"), Index(10), Index(2)];
    assert p[..3] == [Name("a"), Name("b"), Index(10)] && p[..3][..2] == [Name("a"), Name("b")];
    assert p[..3][..2][..1] == [Name("a")] && [Name("a")][..0] == [];
    assert TextOf([Name("a")]) == "a";
    assert TextOf(p[..3][..2]) == "a.b";
    assert Decimal(1) == "1" && Decimal(10) == "10" && Decimal(2) == "2";
    assert TextOf(p[..3]) == "a.b[10]";
  }

  /** Brackets without a number are passed over. */
  lemma KeysByExample()
    ensures ParseKeys("a[].b") == [Name("a"), Name("b")]
  {
    var s := "a[].b";
    assert s[..1] == "a" && s[1..] == "[].b";
    assert "[].b"[1..] == "].b" && "].b"[1..] == ".b" && ".b"[1..] == "b" && "b"[..1] == "b" && "b"[1..] == "";
    assert ParseKeys("b") == [Name("b")];
    assert ParseKeys("].b") == [Name("b")];
    assert ParseKeys("[].b") == [Name("b")];
  }
}
