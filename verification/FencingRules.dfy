/**
 * Which lines of a description end up between fences, said line by line from the text alone.
 */
module FencingRules {
  import opened Fencing
  import opened Prelude

  // --- One line ------------------------------------------------------------------------------------

  ghost predicate AllSpace(s: string) {
    forall i :: 0 <= i < |s| ==> s[i] in WHITE_SPACE
  }

  lemma BlankExactly(line: string)
    ensures IsBlank(line) <==> AllSpace(line)
  {
    var i, j := TrimExactly(line);
    if AllSpace(line) {
      TrimOnly(line, 0, 0, "");
    }
  }

  ghost predicate FourSpaces(line: string) {
    |line| >= 4 && line[0] == line[1] == line[2] == line[3] == ' '
  }

  lemma IndentedExactly(line: string)
    ensures Indented(line) <==> FourSpaces(line)
    ensures Indented(line) ==> line == "    " + Dedent(line)
  {
    if FourSpaces(line) {
      assert line[..4] == "    ";
    }
    if Indented(line) {
      assert line[..4][0] == ' ' && line[..4][1] == ' ' && line[..4][2] == ' ' && line[..4][3] == ' ';
      assert line == line[..4] + line[4..];
    }
  }

  /** White space, a bullet, white space. */
  ghost predicate BulletAt(line: string, a: nat) {
    && a + 1 < |line| && AllSpace(line[..a]) && line[a] in {'-', '*', '+', '\U{00B7}'} && line[a + 1] in WHITE_SPACE
  }

  /** White space, digits, a point or a parenthesis, white space. */
  ghost predicate NumberAt(line: string, a: nat, b: nat) {
    && a < b && b + 1 < |line| && AllSpace(line[..a])
    && (forall i :: a <= i < b ==> line[i] in {'0', '1', '2', '3', '4', '5', '6', '7', '8', '9'})
    && line[b] in {'.', ')'} && line[b + 1] in WHITE_SPACE
  }

  ghost predicate Opens(line: string) {
    (exists a: nat :: BulletAt(line, a)) || exists a: nat, b: nat :: NumberAt(line, a, b)
  }

  lemma DigitExactly(c: char)
    ensures IsDigit(c) <==> c in {'0', '1', '2', '3', '4', '5', '6', '7', '8', '9'}
    ensures IsDigit(c) || c in {'-', '*', '+', '\U{00B7}'} ==> c !in WHITE_SPACE
    ensures IsDigit(c) ==> c !in {'-', '*', '+', '\U{00B7}', '.', ')'}
  {
  }

  /** The first character that is no white space stands at `a`. */
  lemma StartsAt(line: string, a: nat)
    requires a < |line| && AllSpace(line[..a]) && line[a] !in WHITE_SPACE
    ensures TrimStart(line) == line[a..]
  {
    assert forall k :: 0 <= k < a ==> line[..a][k] == line[k];
    var i := TrimStartIs(line);
  }

  lemma {:induction false} DigitsEnd(s: string) returns (n: nat)
    ensures n <= |s| && SkipDigits(s) == s[n..] && (n < |s| ==> !IsDigit(s[n]))
    ensures forall i :: 0 <= i < n ==> IsDigit(s[i])
  {
    n := 0;
    if |s| > 0 && IsDigit(s[0]) {
      n := DigitsEnd(s[1..]);
      assert forall i :: 0 < i <= n ==> s[i] == s[1..][i - 1];
      n := n + 1;
      assert s[1..][n - 1..] == s[n..];
    }
  }

  lemma BulletOpens(line: string, a: nat)
    requires BulletAt(line, a)
    ensures OpensItem(line)
  {
    DigitExactly(line[a]);
    SpaceExactly(line[a + 1]);
    StartsAt(line, a);
    assert line[a..][0] == line[a] && line[a..][1] == line[a + 1];
    assert "-*+\U{00B7}"[0] == '-' && "-*+\U{00B7}"[1] == '*' && "-*+\U{00B7}"[2] == '+'
        && "-*+\U{00B7}"[3] == '\U{00B7}';
  }

  lemma NumberOpens(line: string, a: nat, b: nat)
    requires NumberAt(line, a, b)
    ensures OpensItem(line)
  {
    DigitExactly(line[a]);
    StartsAt(line, a);
    var t := line[a..];
    var n := DigitsEnd(t);
    assert t[b - a] == line[b];
    DigitExactly(line[b]);
    SpaceExactly(line[b + 1]);
    if n < b - a {
      assert t[n] == line[a + n];
      DigitExactly(line[a + n]);
    }
    assert t[n..][0] == line[b] && t[n..][1] == line[b + 1];
    assert ".)"[0] == '.' && ".)"[1] == ')';
  }

  lemma OpensAt(line: string)
    requires OpensItem(line)
    ensures Opens(line)
  {
    var a := TrimStartIs(line);
    var t := TrimStart(line);
    assert AllSpace(line[..a]);
    if |t| > 1 && t[0] in "-*+\U{00B7}" && IsSpace(t[1]) {
      SpaceExactly(t[1]);
      assert t[0] == line[a] && t[1] == line[a + 1];
      assert BulletAt(line, a);
    } else {
      var n := DigitsEnd(t);
      var b := a + n;
      SpaceExactly(t[n..][1]);
      assert t[n..][0] == line[b] && t[n..][1] == line[b + 1];
      forall i | a <= i < b ensures line[i] in {'0', '1', '2', '3', '4', '5', '6', '7', '8', '9'} {
        assert line[i] == t[i - a];
        DigitExactly(line[i]);
      }
      assert NumberAt(line, a, b);
    }
  }

  lemma OpensExactly(line: string)
    ensures OpensItem(line) <==> Opens(line)
  {
    if OpensItem(line) {
      OpensAt(line);
    }
    if a: nat :| BulletAt(line, a) {
      BulletOpens(line, a);
    } else if a: nat, b: nat :| NumberAt(line, a, b) {
      NumberOpens(line, a, b);
    }
  }

  // --- Every line ----------------------------------------------------------------------------------

  /** Which lines are within a block. */
  function Fenced(parts: seq<Part>): seq<bool> {
    if |parts| == 0 then []
    else
      (match parts[0]
       case Line(_) => [false]
       case Block(lines) => seq(|lines|, _ => true)
       case Gap => []) + Fenced(parts[1..])
  }

  /** Line `m` opens a list item that goes on to line `n`: between them no line is blank or at the margin. */
  ghost predicate ItemFrom(lines: seq<string>, fenced: seq<bool>, m: nat, n: nat)
    requires n <= |lines| && n <= |fenced|
  {
    && m < n && !fenced[m] && Opens(lines[m])
    && forall k :: m < k < n ==>
         !fenced[k] && !AllSpace(lines[k]) && lines[k][0] in WHITE_SPACE
  }

  ghost predicate InItem(lines: seq<string>, fenced: seq<bool>, n: nat)
    requires n <= |lines| && n <= |fenced|
  {
    exists m: nat :: ItemFrom(lines, fenced, m, n)
  }

  /**
   * Line `n` is fenced: it is indented by four spaces and not in a list item, or blank between a
   * fenced line and an indented one.
   */
  ghost predicate FencedAt(lines: seq<string>, fenced: seq<bool>, n: nat)
    requires n < |lines| && n <= |fenced|
  {
    || (FourSpaces(lines[n]) && !InItem(lines, fenced, n))
    || (AllSpace(lines[n]) && n > 0 && fenced[n - 1] && n + 1 < |lines| && FourSpaces(lines[n + 1]))
  }

  ghost predicate FencedRightly(lines: seq<string>, fenced: seq<bool>)
    requires |fenced| <= |lines|
  {
    forall n: nat :: n < |fenced| ==> (fenced[n] <==> FencedAt(lines, fenced[..n], n))
  }

  lemma OpensNonBlank(line: string)
    requires Opens(line)
    ensures !AllSpace(line)
  {
    if a: nat :| BulletAt(line, a) {
      DigitExactly(line[a]);
    } else {
      var a: nat, b: nat :| NumberAt(line, a, b);
      DigitExactly(line[a]);
    }
  }

  lemma ItemOn(lines: seq<string>, before: seq<bool>, after: seq<bool>, m: nat, i: nat)
    requires i < |lines| && |before| == i && after == before + [false] && m < i
    ensures ItemFrom(lines, after, m, i + 1) <==>
            ItemFrom(lines, before, m, i) && !AllSpace(lines[i]) && lines[i][0] in WHITE_SPACE
  {
    assert forall k :: 0 <= k < i ==> after[k] == before[k];
  }

  lemma ItemHere(lines: seq<string>, before: seq<bool>, after: seq<bool>, i: nat)
    requires i < |lines| && |before| == i && after == before + [false]
    ensures InItem(lines, after, i + 1) <==>
            Opens(lines[i]) || (InItem(lines, before, i) && !AllSpace(lines[i]) && lines[i][0] in WHITE_SPACE)
  {
    var next := i + 1;
    if m: nat :| ItemFrom(lines, after, m, next) {
      if m < i {
        ItemOn(lines, before, after, m, i);
      }
    }
    if Opens(lines[i]) {
      assert ItemFrom(lines, after, i, i + 1);
    }
    if m: nat :| ItemFrom(lines, before, m, i) {
      ItemOn(lines, before, after, m, i);
    }
  }

  /** The list state a line leaves behind. */
  lemma ListNext(lines: seq<string>, before: seq<bool>, i: nat)
    requires i < |lines| && |before| == i
    ensures InItem(lines, before + [false], i + 1) <==> InListAfter(InItem(lines, before, i), lines[i])
  {
    var line := lines[i];
    BlankExactly(line);
    OpensExactly(line);
    if |line| > 0 {
      SpaceExactly(line[0]);
    }
    if Opens(line) {
      OpensNonBlank(line);
    }
    ItemHere(lines, before, before + [false], i);
  }

  /** No list goes on behind a block. */
  lemma BlockShuts(lines: seq<string>, fenced: seq<bool>, i: nat)
    requires 0 < i <= |lines| && i <= |fenced| && fenced[i - 1]
    ensures !InItem(lines, fenced, i)
  {
    forall m: nat ensures !ItemFrom(lines, fenced, m, i) {
    }
  }

  lemma RightlyNext(lines: seq<string>, before: seq<bool>, b: bool)
    requires |before| < |lines| && FencedRightly(lines, before) && (b <==> FencedAt(lines, before, |before|))
    ensures FencedRightly(lines, before + [b])
  {
    var after := before + [b];
    forall n: nat | n < |after| ensures after[n] <==> FencedAt(lines, after[..n], n) {
      assert after[..n] == if n < |before| then before[..n] else before;
    }
  }

  /** What is between the fences, taken line by line from `i`. */
  ghost predicate Resumes(lines: seq<string>, before: seq<bool>, i: nat, inList: bool) {
    && i <= |lines| && |before| == i && FencedRightly(lines, before) && (inList <==> InItem(lines, before, i))
    && (i > 0 && before[i - 1] ==> !GoesOn(lines, i))
  }

  lemma GoesOnExactly(lines: seq<string>, i: nat)
    ensures GoesOn(lines, i) <==>
            i < |lines| && (FourSpaces(lines[i]) || (AllSpace(lines[i]) && i + 1 < |lines| && FourSpaces(lines[i + 1])))
  {
    if i < |lines| {
      IndentedExactly(lines[i]);
      BlankExactly(lines[i]);
      if i + 1 < |lines| {
        IndentedExactly(lines[i + 1]);
      }
    }
  }

  function Trues(n: nat): seq<bool> {
    seq(n, _ => true)
  }

  lemma GoesOnFenced(lines: seq<string>, before: seq<bool>, k: nat)
    requires k < |lines| && |before| == k && !InItem(lines, before, k) && GoesOn(lines, k)
    requires Indented(lines[k]) || (k > 0 && before[k - 1])
    ensures FencedAt(lines, before, k)
  {
    IndentedExactly(lines[k]);
    GoesOnExactly(lines, k);
  }

  /** A block is fenced to its last line. */
  lemma {:induction false} BlockRightly(lines: seq<string>, before: seq<bool>, i: nat, n: nat)
    requires Resumes(lines, before, i, false) && i < |lines| && Indented(lines[i]) && i + n <= BlockEnd(lines, i)
    ensures FencedRightly(lines, before + Trues(n))
  {
    if n == 0 {
      assert before + Trues(0) == before;
    } else {
      BlockRightly(lines, before, i, n - 1);
      var so, k := before + Trues(n - 1), i + n - 1;
      assert before + Trues(n) == so + [true];
      if n == 1 {
        assert so == before;
      } else {
        assert so[k - 1];
        BlockShuts(lines, so, k);
      }
      assert GoesOn(lines, k);
      GoesOnFenced(lines, so, k);
      RightlyNext(lines, so, true);
    }
  }

  /** A line left as it is is not fenced. */
  lemma LineRightly(lines: seq<string>, before: seq<bool>, i: nat, inList: bool)
    requires Resumes(lines, before, i, inList) && i < |lines| && (Indented(lines[i]) ==> inList)
    ensures Resumes(lines, before + [false], i + 1, InListAfter(inList, lines[i]))
  {
    IndentedExactly(lines[i]);
    GoesOnExactly(lines, i);
    RightlyNext(lines, before, false);
    ListNext(lines, before, i);
  }

  lemma BlockResumes(lines: seq<string>, before: seq<bool>, i: nat)
    requires Resumes(lines, before, i, false) && i < |lines| && Indented(lines[i])
    ensures var j := BlockEnd(lines, i); i < j && Resumes(lines, before + Trues(j - i), j, false)
  {
    var j := BlockEnd(lines, i);
    LineNext(lines, i);
    BlockRightly(lines, before, i, j - i);
    var after := before + Trues(j - i);
    assert after[j - 1];
    BlockShuts(lines, after, j);
  }

  lemma FencedFirst(p: Part, rest: seq<Part>)
    requires !p.Gap?
    ensures Fenced([p] + rest) == (if p.Block? then Trues(|p.lines|) else [false]) + Fenced(rest)
  {
    assert ([p] + rest)[1..] == rest;
  }

  /** The marks of the parts from `i`, one part on. */
  lemma FencedNext(lines: seq<string>, before: seq<bool>, i: nat, inList: bool)
    requires i < |lines|
    ensures var parts, j := Parts(lines, i, inList), BlockEnd(lines, i);
            before + Fenced(parts) ==
            if Indented(lines[i]) && !inList then (before + Trues(j - i)) + Fenced(Parts(lines, j, false))
            else (before + [false]) + Fenced(Parts(lines, i + 1, InListAfter(inList, lines[i])))
  {
    if Indented(lines[i]) && !inList {
      var j := BlockEnd(lines, i);
      FencedFirst(Block(Dedented(lines, i, j)), Parts(lines, j, false));
      Regroup3(before, Trues(j - i), Fenced(Parts(lines, j, false)));
    } else {
      var next := InListAfter(inList, lines[i]);
      FencedFirst(Line(lines[i]), Parts(lines, i + 1, next));
      Regroup3(before, [false], Fenced(Parts(lines, i + 1, next)));
    }
  }

  /** One part on. */
  lemma StepOn(lines: seq<string>, before: seq<bool>, i: nat, inList: bool)
    returns (after: seq<bool>, j: nat, listed: bool)
    requires Resumes(lines, before, i, inList) && i < |lines|
    ensures i < j && Resumes(lines, after, j, listed)
    ensures before + Fenced(Parts(lines, i, inList)) == after + Fenced(Parts(lines, j, listed))
  {
    FencedNext(lines, before, i, inList);
    if Indented(lines[i]) && !inList {
      BlockResumes(lines, before, i);
      j, listed := BlockEnd(lines, i), false;
      after := before + Trues(j - i);
    } else {
      LineRightly(lines, before, i, inList);
      j, listed, after := i + 1, InListAfter(inList, lines[i]), before + [false];
    }
  }

  lemma {:induction false} FencedFrom(lines: seq<string>, before: seq<bool>, i: nat, inList: bool)
    requires Resumes(lines, before, i, inList)
    ensures var fenced := before + Fenced(Parts(lines, i, inList));
            |fenced| == |lines| && FencedRightly(lines, fenced)
    decreases |lines| - i
  {
    if i == |lines| {
      assert before + [] == before;
    } else {
      var after, j, listed := StepOn(lines, before, i, inList);
      FencedFrom(lines, after, j, listed);
    }
  }

  /**
   * The lines within blocks are those that are indented outside every list item, and the blank ones
   * that join such lines; a line follows every block, so none is split in two.
   */
  lemma FencedExactly(lines: seq<string>)
    ensures var parts := Parts(lines, 0, false);
            |Fenced(parts)| == |lines| && FencedRightly(lines, Fenced(parts)) && NoneSplit(parts)
  {
    var parts := Parts(lines, 0, false);
    assert [] + Fenced(parts) == Fenced(parts);
    FencedFrom(lines, [], 0, false);
    BlocksApart(lines, 0, false);
  }

  ghost predicate NoneSplit(parts: seq<Part>) {
    forall k :: 0 <= k < |parts| - 1 ==> !(parts[k].Block? && parts[k + 1].Block?)
  }

  lemma NoneSplitFirst(p: Part, rest: seq<Part>)
    requires NoneSplit(rest) && (p.Block? && |rest| > 0 ==> !rest[0].Block?)
    ensures NoneSplit([p] + rest)
  {
    var all := [p] + rest;
    assert forall k :: 0 < k < |all| ==> all[k] == rest[k - 1];
  }

  lemma {:induction false} BlocksApart(lines: seq<string>, i: nat, inList: bool)
    requires i <= |lines|
    ensures NoneSplit(Parts(lines, i, inList))
    decreases |lines| - i
  {
    if i < |lines| {
      if Indented(lines[i]) && !inList {
        var j := BlockEnd(lines, i);
        LineNext(lines, i);
        BlocksApart(lines, j, false);
        NoneSplitFirst(Block(Dedented(lines, i, j)), Parts(lines, j, false));
      } else {
        BlocksApart(lines, i + 1, InListAfter(inList, lines[i]));
        NoneSplitFirst(Line(lines[i]), Parts(lines, i + 1, InListAfter(inList, lines[i])));
      }
    }
  }

  // --- By example --------------------------------------------------------------------------------------

  const PAGE := ["- a", "    b", "", "    c", "d"]

  lemma IndentedLines()
    ensures Indented("    b") && !IsBlank("    b") && !OpensItem("    b")
    ensures Indented("    c") && Dedent("    c") == "c"
  {
    BlankExactly("    b");
    assert "    b"[4] !in WHITE_SPACE;
    StartsAt("    b", 4);
    IndentedExactly("    b");
    IndentedExactly("    c");
  }

  lemma OtherLines()
    ensures OpensItem("- a") && !IsBlank("- a")
    ensures IsBlank("") && !Indented("")
    ensures !Indented("d") && !IsBlank("d")
  {
    BulletOpens("- a", 0);
    BlankExactly("- a");
    BlankExactly("");
    BlankExactly("d");
    assert "- a"[0] !in WHITE_SPACE && "d"[0] !in WHITE_SPACE;
  }

  lemma PageParts()
    ensures Parts(PAGE, 0, false) == [Line("- a"), Line("    b"), Line(""), Block(["c"]), Line("d")]
  {
    IndentedLines();
    OtherLines();
    assert Parts(PAGE, 5, false) == [];
    assert !InListAfter(false, "") && !InListAfter(true, "");
    assert Parts(PAGE, 4, false) == [Line("d")] + Parts(PAGE, 5, InListAfter(false, "d"));
    assert GoesOn(PAGE, 3) && !GoesOn(PAGE, 4);
    assert BlockEnd(PAGE, 3) == 4 && Dedented(PAGE, 3, 4) == ["c"];
    assert Parts(PAGE, 3, false) == [Block(["c"])] + Parts(PAGE, 4, false);
    assert Parts(PAGE, 2, true) == [Line("")] + Parts(PAGE, 3, false);
    assert InListAfter(true, "    b");
    assert Parts(PAGE, 1, true) == [Line("    b")] + Parts(PAGE, 2, true);
    assert Parts(PAGE, 0, false) == [Line("- a")] + Parts(PAGE, 1, true);
  }

  /** An indented line under a bullet stays; behind a blank line one is fenced, apart from the paragraph after it. */
  method FencePage() returns (out: seq<string>)
    ensures out == ["- a", "    b", "", "```sh", "c", "```", "", "d"]
  {
    out := FenceIndentedBlocks(PAGE);
    PageParts();
    PageWritten();
  }

  lemma LineWritten(text: string, rest: seq<Part>, out: seq<string>)
    requires |rest| > 0 && !Touch(Line(text), rest[0]) && Written(Spaced(rest)) == out
    ensures Written(Spaced([Line(text)] + rest)) == [text] + out
  {
    WrittenFirst(Line(text), rest);
    assert [] + out == out;
  }

  lemma LastWritten(text: string)
    ensures Written(Spaced([Line(text)])) == [text]
  {
    WrittenFirst(Line(text), []);
    assert [Line(text)] + [] == [Line(text)];
  }

  lemma GapWritten(block: Part, last: Part, out: seq<string>)
    requires Touch(block, last) && Written(Spaced([last])) == out
    ensures Written(Spaced([block, last])) == LinesOf(block) + ([""] + out)
  {
    WrittenFirst(block, [last]);
    WrittenGap([Gap], []);
    assert [block] + [last] == [block, last];
  }

  lemma BlockWritten()
    ensures Written(Spaced([Block(["c"]), Line("d")])) == ["```sh", "c", "```", "", "d"]
  {
    OtherLines();
    LastWritten("d");
    GapWritten(Block(["c"]), Line("d"), ["d"]);
  }

  lemma PageWritten()
    ensures Written(Spaced([Line("- a"), Line("    b"), Line(""), Block(["c"]), Line("d")])) ==
            ["- a", "    b", "", "```sh", "c", "```", "", "d"]
  {
    BlockWritten();
    BlankExactly("");
    var third := [Block(["c"]), Line("d")];
    LineWritten("", third, ["```sh", "c", "```", "", "d"]);
    var second := [Line("")] + third;
    LineWritten("    b", second, [""] + ["```sh", "c", "```", "", "d"]);
    var first := [Line("    b")] + second;
    LineWritten("- a", first, ["    b"] + ([""] + ["```sh", "c", "```", "", "d"]));
    assert [Line("- a")] + first == [Line("- a"), Line("    b"), Line(""), Block(["c"]), Line("d")];
  }
}
