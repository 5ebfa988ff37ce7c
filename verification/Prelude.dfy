/** Small datatypes and list facts shared by the models. */
module Prelude {
  datatype Option<+T> = None | Some(value: T)

  lemma Regroup3<T>(a: seq<T>, b: seq<T>, c: seq<T>)
    ensures (a + b) + c == a + (b + c)
  {
  }

  lemma Regroup4<T>(a: seq<T>, b: seq<T>, c: seq<T>, d: seq<T>)
    ensures ((a + b) + c) + d == a + (b + (c + d))
  {
  }

  lemma AddNothing<T>(a: seq<T>)
    ensures a + [] == a
  {
  }

  // --- Splitting and joining texts ------------------------------------------------------------------

  /** `s.split(at)`, for a one-character separator. */
  function Split(s: string, at: char): (r: seq<string>)
    ensures |r| >= 1
  {
    if |s| == 0 then [[]]
    else if s[0] == at then [[]] + Split(s[1..], at)
    else [[s[0]] + Split(s[1..], at)[0]] + Split(s[1..], at)[1..]
  }

  /** `parts.join(at)` */
  function Join(parts: seq<string>, at: char): string {
    if |parts| == 0 then "" else if |parts| == 1 then parts[0] else parts[0] + [at] + Join(parts[1..], at)
  }

  lemma {:induction false} SplitPart(part: string, rest: string, at: char)
    requires at !in part
    ensures Split(part + [at] + rest, at) == [part] + Split(rest, at)
    ensures Split(part, at) == [part]
  {
    var text := part + [at] + rest;
    if |part| == 0 {
      assert text[1..] == rest;
    } else {
      SplitPart(part[1..], rest, at);
      assert text[1..] == part[1..] + [at] + rest;
      assert [part[0]] + part[1..] == part;
    }
  }

  /** Parts without the separator are found where they were joined. */
  lemma {:induction false} SplitJoined(parts: seq<string>, at: char)
    requires |parts| > 0 && forall p :: p in parts ==> at !in p
    ensures Split(Join(parts, at), at) == parts
  {
    if |parts| == 1 {
      SplitPart(parts[0], "", at);
    } else {
      SplitJoined(parts[1..], at);
      SplitPart(parts[0], Join(parts[1..], at), at);
    }
  }

  lemma {:induction false} SplitFree(s: string, at: char)
    ensures forall i :: 0 <= i < |Split(s, at)| ==> at !in Split(s, at)[i]
  {
    if |s| > 0 {
      SplitFree(s[1..], at);
    }
  }

  /** The first part grows by a character. */
  lemma JoinCons(c: char, parts: seq<string>, at: char)
    requires |parts| > 0
    ensures Join([[c] + parts[0]] + parts[1..], at) == [c] + Join(parts, at)
  {
    var more := [[c] + parts[0]] + parts[1..];
    assert more[1..] == parts[1..];
    if |parts| > 1 {
      Regroup4([c], parts[0], [at], Join(parts[1..], at));
      Regroup3(parts[0], [at], Join(parts[1..], at));
    }
  }

  lemma {:induction false} JoinSplit(s: string, at: char)
    ensures Join(Split(s, at), at) == s
  {
    if |s| > 0 {
      var rest := Split(s[1..], at);
      JoinSplit(s[1..], at);
      if s[0] == at {
        assert ([[]] + rest)[1..] == rest;
        assert [] + [at] == [at];
      } else {
        JoinCons(s[0], rest, at);
      }
      assert s == [s[0]] + s[1..];
    }
  }

  /** A further character does not touch the parts of a text after its first. */
  lemma SplitCons(c: char, s: string, more: seq<string>, at: char, text: string)
    requires Split(text, at) == Split(s, at) + more
    ensures Split([c] + text, at) == Split([c] + s, at) + more
  {
    var parts := Split(s, at);
    assert ([c] + text)[1..] == text && ([c] + s)[1..] == s;
    if c == at {
      Regroup3([[]], parts, more);
    } else {
      assert (parts + more)[0] == parts[0] && (parts + more)[1..] == parts[1..] + more;
      Regroup3([[c] + parts[0]], parts[1..], more);
    }
  }

  /** Texts on both sides of a separator are split on their own. */
  lemma {:induction false} SplitBoth(s: string, t: string, at: char)
    ensures Split(s + [at] + t, at) == Split(s, at) + Split(t, at)
  {
    var text := s + [at] + t;
    if |s| == 0 {
      assert text[1..] == t;
    } else {
      SplitBoth(s[1..], t, at);
      assert text[0] == s[0] && text[1..] == s[1..] + [at] + t;
      SplitCons(s[0], s[1..], Split(t, at), at, text[1..]);
      assert [text[0]] + text[1..] == text && [s[0]] + s[1..] == s;
    }
  }

  // --- Characters ------------------------------------------------------------------------------------

  predicate IsDigit(c: char) { '0' <= c <= '9' }

  /** The white space `String.prototype.trim` removes. */
  predicate IsSpace(c: char) {
    || '\t' <= c <= '\r' || c == ' ' || c == '\U{00A0}' || c == '\U{1680}'
    || '\U{2000}' <= c <= '\U{200A}' || c == '\U{2028}' || c == '\U{2029}'
    || c == '\U{202F}' || c == '\U{205F}' || c == '\U{3000}' || c == '\U{FEFF}'
  }

  function TrimStart(s: string): string {
    if |s| > 0 && IsSpace(s[0]) then TrimStart(s[1..]) else s
  }

  function TrimEnd(s: string): string {
    if |s| > 0 && IsSpace(s[|s| - 1]) then TrimEnd(s[..|s| - 1]) else s
  }

  function Trim(s: string): string {
    TrimEnd(TrimStart(s))
  }

  /** The characters ECMAScript calls white space and line terminators, listed. */
  const WHITE_SPACE: set<char> := {
    '\t', '\n', '\U{000B}', '\U{000C}', '\r', ' ', '\U{00A0}', '\U{1680}',
    '\U{2000}', '\U{2001}', '\U{2002}', '\U{2003}', '\U{2004}', '\U{2005}',
    '\U{2006}', '\U{2007}', '\U{2008}', '\U{2009}', '\U{200A}',
    '\U{2028}', '\U{2029}', '\U{202F}', '\U{205F}', '\U{3000}', '\U{FEFF}'
  }

  lemma SpaceExactly(c: char)
    ensures IsSpace(c) <==> c in WHITE_SPACE
  {
  }

  /** What stands from `i` to `j`, all else being white space. */
  ghost predicate Within(s: string, i: nat, j: nat, t: string) {
    && i <= j <= |s| && t == s[i..j]
    && (forall k :: 0 <= k < i ==> s[k] in WHITE_SPACE) && (forall k :: j <= k < |s| ==> s[k] in WHITE_SPACE)
    && (|t| > 0 ==> t[0] !in WHITE_SPACE && t[|t| - 1] !in WHITE_SPACE)
  }

  lemma {:induction false} TrimStartIs(s: string) returns (i: nat)
    ensures i <= |s| && TrimStart(s) == s[i..] && (i < |s| ==> s[i] !in WHITE_SPACE)
    ensures forall k :: 0 <= k < i ==> s[k] in WHITE_SPACE
  {
    i := 0;
    if |s| > 0 {
      SpaceExactly(s[0]);
      if IsSpace(s[0]) {
        var j := TrimStartIs(s[1..]);
        i := j + 1;
        assert s[i..] == s[1..][j..];
        assert forall k :: 0 < k < i ==> s[k] == s[1..][k - 1];
      }
    }
  }

  lemma {:induction false} TrimEndIs(s: string) returns (j: nat)
    ensures j <= |s| && TrimEnd(s) == s[..j] && (j > 0 ==> s[j - 1] !in WHITE_SPACE)
    ensures forall k :: j <= k < |s| ==> s[k] in WHITE_SPACE
  {
    j := |s|;
    if |s| > 0 {
      SpaceExactly(s[|s| - 1]);
      if IsSpace(s[|s| - 1]) {
        j := TrimEndIs(s[..|s| - 1]);
        assert s[..j] == s[..|s| - 1][..j];
        assert forall k :: j <= k < |s| - 1 ==> s[k] == s[..|s| - 1][k];
      }
    }
  }

  /** Trimming leaves what stands between the first and the last character that is no white space. */
  lemma TrimExactly(s: string) returns (i: nat, j: nat)
    ensures Within(s, i, j, Trim(s))
  {
    i := TrimStartIs(s);
    var t := TrimStart(s);
    var n := TrimEndIs(t);
    j := i + n;
    assert t[..n] == s[i..j];
    assert forall k :: j <= k < |s| ==> s[k] == t[k - i];
    if n > 0 {
      assert t[0] == s[i];
    }
  }

  /** And only that. */
  lemma TrimOnly(s: string, i: nat, j: nat, t: string)
    requires Within(s, i, j, t)
    ensures t == Trim(s)
  {
    var m, n := TrimExactly(s);
    if |t| > 0 && |Trim(s)| > 0 {
      assert s[i] == t[0] && s[j - 1] == t[|t| - 1];
      assert s[m] == Trim(s)[0] && s[n - 1] == Trim(s)[|Trim(s)| - 1];
    }
  }
}
