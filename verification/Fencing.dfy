/**
 * `fenceIndentedBlocks`: a description's indented blocks become fenced ones, line by line,
 * with one line of look-ahead.
 */
module Fencing {
  import opened Prelude

  predicate Indented(line: string) {
    |line| >= 4 && line[..4] == "    "
  }

  predicate IsBlank(line: string) {
    Trim(line) == ""
  }

  /** `line.slice(4)` */
  function Dedent(line: string): string {
    if |line| < 4 then "" else line[4..]
  }

  function SkipDigits(s: string): string {
    if |s| > 0 && IsDigit(s[0]) then SkipDigits(s[1..]) else s
  }

  /** `^\s*([-*+·]|\d+[.)])\s` */
  predicate OpensItem(line: string) {
    var t := TrimStart(line);
    || (|t| > 1 && t[0] in "-*+\U{00B7}" && IsSpace(t[1]))
    || (|t| > 0 && IsDigit(t[0]) && var u := SkipDigits(t); |u| > 1 && u[0] in ".)" && IsSpace(u[1]))
  }

  /** Whether the line after `line` is in a list. */
  predicate InListAfter(inList: bool, line: string) {
    if IsBlank(line) then false
    else if OpensItem(line) then true
    else if |line| == 0 || !IsSpace(line[0]) then false
    else inList
  }

  /** A block goes on: the next line is indented, or blank before an indented one. */
  predicate GoesOn(lines: seq<string>, i: nat) {
    i < |lines| && (Indented(lines[i]) || (IsBlank(lines[i]) && i + 1 < |lines| && Indented(lines[i + 1])))
  }

  function BlockEnd(lines: seq<string>, i: nat): (j: nat)
    requires i <= |lines|
    ensures i <= j <= |lines| && !GoesOn(lines, j)
    ensures forall k :: i <= k < j ==> GoesOn(lines, k)
    decreases |lines| - i
  {
    if GoesOn(lines, i) then BlockEnd(lines, i + 1) else i
  }

  function Dedented(lines: seq<string>, i: nat, j: nat): (r: seq<string>)
    requires i <= j <= |lines|
    ensures |r| == j - i && forall k :: 0 <= k < |r| ==> r[k] == Dedent(lines[i + k])
  {
    seq(j - i, k requires 0 <= k < j - i => Dedent(lines[i + k]))
  }

  /** A text in parts: a line as written, a block between fences, and a blank line set between the two. */
  datatype Part = Line(text: string) | Block(lines: seq<string>) | Gap

  function Parts(lines: seq<string>, i: nat, inList: bool): (r: seq<Part>)
    requires i <= |lines|
    ensures Gap !in r
    decreases |lines| - i
  {
    if i == |lines| then []
    else if Indented(lines[i]) && !inList then
      var j := BlockEnd(lines, i);
      [Block(Dedented(lines, i, j))] + Parts(lines, j, false)
    else [Line(lines[i])] + Parts(lines, i + 1, InListAfter(inList, lines[i]))
  }

  /** A line of a paragraph. */
  predicate Paragraph(p: Part) {
    p.Line? && !IsBlank(p.text)
  }

  /** A paragraph and a fence with nothing between them. */
  predicate Touch(p: Part, q: Part) {
    (Paragraph(p) && q.Block?) || (p.Block? && Paragraph(q))
  }

  function Between(p: Part, rest: seq<Part>): seq<Part> {
    if |rest| > 0 && Touch(p, rest[0]) then [Gap] else []
  }

  /** The parts with a gap wherever a paragraph would touch a fence. */
  function Spaced(parts: seq<Part>): seq<Part> {
    if |parts| == 0 then [] else [parts[0]] + Between(parts[0], parts[1..]) + Spaced(parts[1..])
  }

  const OPENING := "```sh"
  const CLOSING := "```"

  function LinesOf(p: Part): seq<string> {
    match p
    case Line(text) => [text]
    case Block(lines) => [OPENING] + lines + [CLOSING]
    case Gap => [""]
  }

  function Written(parts: seq<Part>): seq<string> {
    if |parts| == 0 then [] else LinesOf(parts[0]) + Written(parts[1..])
  }

  function GapIf(needed: bool): seq<string> {
    if needed then [""] else []
  }

  // --- The loop ----------------------------------------------------------------------------------------

  lemma SpacedUnfolds(p: Part, rest: seq<Part>)
    ensures Spaced([p] + rest) == [p] + (Between(p, rest) + Spaced(rest))
    ensures |rest| > 0 ==> |Spaced(rest)| > 0 && Spaced(rest)[0] == rest[0]
  {
    assert ([p] + rest)[1..] == rest;
    Regroup3([p], Between(p, rest), Spaced(rest));
  }

  lemma WrittenCons(p: Part, rest: seq<Part>)
    ensures Written([p] + rest) == LinesOf(p) + Written(rest)
  {
    assert ([p] + rest)[1..] == rest;
  }

  lemma WrittenGap(gap: seq<Part>, rest: seq<Part>)
    requires gap == [] || gap == [Gap]
    ensures Written(gap + rest) == Written(gap) + Written(rest)
    ensures Written(gap) == GapIf(gap == [Gap])
  {
    if gap == [] {
      assert gap + rest == rest;
    } else {
      WrittenCons(Gap, rest);
      WrittenCons(Gap, []);
      assert gap + [] == gap;
    }
  }

  /** What is still written after the part `p`. */
  function After(p: Part, rest: seq<Part>): seq<string> {
    Written(Between(p, rest)) + Written(Spaced(rest))
  }

  lemma WrittenFirst(p: Part, rest: seq<Part>)
    ensures Written(Spaced([p] + rest)) == LinesOf(p) + After(p, rest)
  {
    SpacedUnfolds(p, rest);
    WrittenCons(p, Between(p, rest) + Spaced(rest));
    WrittenGap(Between(p, rest), Spaced(rest));
  }

  /** After a line or a gap, the next part is a line. */
  lemma AfterLine(last: Part, line: string, rest: seq<Part>)
    requires !last.Block?
    ensures After(last, [Line(line)] + rest) == [line] + After(Line(line), rest)
  {
    WrittenFirst(Line(line), rest);
  }

  /** The next part is a block. */
  lemma AfterBlock(last: Part, block: seq<string>, rest: seq<Part>)
    requires !last.Block?
    ensures After(last, [Block(block)] + rest) ==
            GapIf(Paragraph(last))
            + (([OPENING] + block + [CLOSING]) + (GapIf(|rest| > 0 && Paragraph(rest[0])) + After(Gap, rest)))
  {
    var gap := GapIf(|rest| > 0 && Paragraph(rest[0]));
    WrittenFirst(Block(block), rest);
    WrittenGap(Between(last, [Block(block)] + rest), []);
    WrittenGap(Between(Block(block), rest), []);
    assert LinesOf(Block(block)) == [OPENING] + block + [CLOSING];
    assert After(Block(block), rest) == gap + Written(Spaced(rest));
    assert After(Gap, rest) == Written(Spaced(rest));
  }

  /** After a block stands a line, if anything does. */
  lemma LineNext(lines: seq<string>, i: nat)
    requires i < |lines| && Indented(lines[i])
    ensures var j := BlockEnd(lines, i);
            && i < j
            && (j < |lines| ==>
                 Parts(lines, j, false) == [Line(lines[j])] + Parts(lines, j + 1, InListAfter(false, lines[j])))
  {
    var j := BlockEnd(lines, i);
    assert GoesOn(lines, i) && !GoesOn(lines, j);
  }

  /** One block: its lines, and the line after it. */
  method TakeBlock(lines: seq<string>, start: nat) returns (block: seq<string>, i: nat)
    requires start <= |lines|
    ensures i == BlockEnd(lines, start) && block == Dedented(lines, start, i)
  {
    block, i := [], start;
    while GoesOn(lines, i)
      invariant start <= i <= |lines| && BlockEnd(lines, i) == BlockEnd(lines, start)
      decreases |lines| - i
      invariant |block| == i - start && forall k :: 0 <= k < |block| ==> block[k] == Dedent(lines[start + k])
    {
      block := block + [Dedent(lines[i])];
      i := i + 1;
    }
  }

  predicate EndsParagraph(out: seq<string>) {
    |out| > 0 && !IsBlank(out[|out| - 1])
  }

  function GapTo(out: seq<string>, needed: bool): seq<string> {
    if needed then out + [""] else out
  }

  lemma GapToIs(out: seq<string>, needed: bool)
    ensures GapTo(out, needed) == out + GapIf(needed)
  {
    AddNothing(out);
  }

  lemma Regroup5<T>(a: seq<T>, b: seq<T>, c: seq<T>, d: seq<T>, e: seq<T>)
    ensures (((a + b) + c) + d) + e == a + (b + (c + (d + e)))
  {
  }

  /** What is written, and what is still to be, make up the whole. */
  ghost predicate Due(out: seq<string>, last: Part, rest: seq<Part>, whole: seq<string>) {
    !last.Block? && out + After(last, rest) == whole
  }

  /** A block is written with the gaps it needs. */
  lemma BlockDue(out: seq<string>, last: Part, block: seq<string>, parts: seq<Part>, rest: seq<Part>,
          whole: seq<string>)
    requires Due(out, last, parts, whole) && parts == [Block(block)] + rest
    ensures var apart := GapTo(out, Paragraph(last));
            Due(GapTo(apart + ([OPENING] + block + [CLOSING]), |rest| > 0 && Paragraph(rest[0])), Gap, rest, whole)
  {
    var fenced, closes := [OPENING] + block + [CLOSING], |rest| > 0 && Paragraph(rest[0]);
    AfterBlock(last, block, rest);
    GapToIs(out, Paragraph(last));
    GapToIs(GapTo(out, Paragraph(last)) + fenced, closes);
    Regroup5(out, GapIf(Paragraph(last)), fenced, GapIf(closes), After(Gap, rest));
  }

  lemma LineDue(out: seq<string>, last: Part, line: string, parts: seq<Part>, rest: seq<Part>, whole: seq<string>)
    requires Due(out, last, parts, whole) && parts == [Line(line)] + rest
    ensures Due(out + [line], Line(line), rest, whole)
  {
    AfterLine(last, line, rest);
    Regroup3(out, [line], After(Line(line), rest));
  }

  /** One block between its fences, apart from a paragraph before it or after it. */
  method WriteBlock(before: seq<string>, block: seq<string>, paragraphNext: bool) returns (out: seq<string>)
    ensures out == GapTo(GapTo(before, EndsParagraph(before)) + ([OPENING] + block + [CLOSING]), paragraphNext)
  {
    out := before;
    if EndsParagraph(out) {
      out := out + [""];
    }
    out := out + ([OPENING] + block + [CLOSING]);
    if paragraphNext {
      out := out + [""];
    }
  }

  method FenceIndentedBlocks(lines: seq<string>) returns (out: seq<string>)
    ensures out == Written(Spaced(Parts(lines, 0, false)))
  {
    out := [];
    var inList, i := false, 0;
    ghost var last, whole := Gap, Written(Spaced(Parts(lines, 0, false)));
    while i < |lines|
      invariant i <= |lines|
      invariant Due(out, last, Parts(lines, i, inList), whole)
      invariant i < |lines| && Indented(lines[i]) && !inList ==> (EndsParagraph(out) <==> Paragraph(last))
      decreases |lines| - i
    {
      var line := lines[i];
      ghost var parts := Parts(lines, i, inList);
      if Indented(line) && !inList {
        LineNext(lines, i);
        var block;
        block, i := TakeBlock(lines, i);
        ghost var rest := Parts(lines, i, false);
        BlockDue(out, last, block, parts, rest, whole);
        assert (|rest| > 0 && Paragraph(rest[0])) == (i < |lines| && !IsBlank(lines[i]));
        out := WriteBlock(out, block, i < |lines| && !IsBlank(lines[i]));
        last := Gap;
      } else {
        LineDue(out, last, line, parts, Parts(lines, i + 1, InListAfter(inList, line)), whole);
        inList := InListAfter(inList, line);
        out := out + [line];
        i := i + 1;
        last := Line(line);
      }
    }
    assert out + [] == out;
  }

  // --- Gaps stand where they are needed --------------------------------------------------------------

  /** The parts without their gaps. */
  function Ungapped(parts: seq<Part>): seq<Part> {
    if |parts| == 0 then [] else (if parts[0].Gap? then [] else [parts[0]]) + Ungapped(parts[1..])
  }

  /** A gap stands between the two it keeps apart. */
  predicate Parting(parts: seq<Part>, k: nat) {
    0 < k && k + 1 < |parts| && Touch(parts[k - 1], parts[k + 1])
  }

  predicate Clear(parts: seq<Part>, k: nat) {
    k + 1 < |parts| ==> !Touch(parts[k], parts[k + 1])
  }

  lemma UngappedBoth(gap: seq<Part>, rest: seq<Part>)
    requires gap == [] || gap == [Gap]
    ensures Ungapped(gap + rest) == Ungapped(rest)
  {
    if gap == [] {
      assert gap + rest == rest;
    } else {
      assert (gap + rest)[1..] == rest;
    }
  }

  lemma {:induction false} SpacedKeeps(parts: seq<Part>)
    requires Gap !in parts
    ensures Ungapped(Spaced(parts)) == parts
  {
    if |parts| > 0 {
      var rest := parts[1..];
      SpacedKeeps(rest);
      assert parts == [parts[0]] + rest;
      SpacedUnfolds(parts[0], rest);
      UngappedBoth(Between(parts[0], rest), Spaced(rest));
      assert ([parts[0]] + (Between(parts[0], rest) + Spaced(rest)))[1..] == Between(parts[0], rest) + Spaced(rest);
    }
  }

  /** No paragraph touches a fence, and each gap is needed for that. */
  ghost predicate WellSpaced(parts: seq<Part>) {
    && (forall k: nat {:trigger Clear(parts, k)} :: Clear(parts, k))
    && forall k: nat {:trigger Parting(parts, k)} :: k < |parts| && parts[k].Gap? ==> Parting(parts, k)
  }

  /** A part in front of parts that are well spaced, kept apart from the first if they touch. */
  lemma FrontClear(p: Part, gap: seq<Part>, spaced: seq<Part>, k: nat)
    requires WellSpaced(spaced) && !p.Gap?
    requires gap == if |spaced| > 0 && Touch(p, spaced[0]) then [Gap] else []
    ensures Clear([p] + (gap + spaced), k)
  {
    var all, n := [p] + (gap + spaced), |gap| + 1;
    if k >= n {
      assert Clear(spaced, k - n);
      assert k + 1 < |all| ==> all[k] == spaced[k - n] && all[k + 1] == spaced[k + 1 - n];
    } else if k + 1 < |all| {
      assert all[k] == if k == 0 then p else Gap;
      assert all[k + 1] == if k == |gap| then spaced[0] else Gap;
    }
  }

  lemma FrontParting(p: Part, gap: seq<Part>, spaced: seq<Part>, k: nat)
    requires WellSpaced(spaced) && !p.Gap?
    requires gap == if |spaced| > 0 && Touch(p, spaced[0]) then [Gap] else []
    requires k < 1 + |gap| + |spaced| && ([p] + (gap + spaced))[k].Gap?
    ensures Parting([p] + (gap + spaced), k)
  {
    var all, n := [p] + (gap + spaced), |gap| + 1;
    if k >= n {
      assert all[k] == spaced[k - n];
      assert Parting(spaced, k - n);
      assert all[k - 1] == spaced[k - n - 1] && all[k + 1] == spaced[k - n + 1];
    } else {
      assert all[k - 1] == p && all[k + 1] == spaced[0];
    }
  }

  lemma FrontWellSpaced(p: Part, gap: seq<Part>, spaced: seq<Part>)
    requires WellSpaced(spaced) && !p.Gap?
    requires gap == if |spaced| > 0 && Touch(p, spaced[0]) then [Gap] else []
    ensures WellSpaced([p] + (gap + spaced))
  {
    var all := [p] + (gap + spaced);
    forall k: nat ensures Clear(all, k) {
      FrontClear(p, gap, spaced, k);
    }
    forall k: nat | k < |all| && all[k].Gap? ensures Parting(all, k) {
      FrontParting(p, gap, spaced, k);
    }
  }

  /** The parts are kept, and gaps added exactly where a paragraph would touch a fence. */
  lemma {:induction false} GapsExactly(parts: seq<Part>)
    requires Gap !in parts
    ensures Ungapped(Spaced(parts)) == parts && WellSpaced(Spaced(parts))
  {
    SpacedKeeps(parts);
    if |parts| > 0 {
      var rest := parts[1..];
      GapsExactly(rest);
      assert parts == [parts[0]] + rest;
      SpacedUnfolds(parts[0], rest);
      FrontWellSpaced(parts[0], Between(parts[0], rest), Spaced(rest));
    }
  }

  // --- No line is lost -------------------------------------------------------------------------------

  /** The parts, line by line, are the lines from `i`: as written, or without their indentation. */
  ghost predicate Conserved(lines: seq<string>, i: nat, parts: seq<Part>)
    requires i <= |lines|
    decreases |parts|
  {
    if |parts| == 0 then i == |lines|
    else
      match parts[0]
      case Gap => false
      case Line(text) => i < |lines| && text == lines[i] && Conserved(lines, i + 1, parts[1..])
      case Block(block) =>
        && i + |block| <= |lines| && |block| > 0
        && block == Dedented(lines, i, i + |block|)
        && Indented(lines[i]) && Indented(lines[i + |block| - 1])
        && (forall k :: i <= k < i + |block| ==> Indented(lines[k]) || IsBlank(lines[k]))
        && Conserved(lines, i + |block|, parts[1..])
  }

  /** Every line is kept once, in order; a block starts and ends at an indented line. */
  lemma {:induction false} NoLineLost(lines: seq<string>, i: nat, inList: bool)
    requires i <= |lines|
    ensures Conserved(lines, i, Parts(lines, i, inList))
    decreases |lines| - i
  {
    if i < |lines| {
      var parts := Parts(lines, i, inList);
      if Indented(lines[i]) && !inList {
        var j := BlockEnd(lines, i);
        LineNext(lines, i);
        NoLineLost(lines, j, false);
        assert parts[1..] == Parts(lines, j, false);
        assert GoesOn(lines, j - 1) && !GoesOn(lines, j);
        forall k | i <= k < j ensures Indented(lines[k]) || IsBlank(lines[k]) {
          assert GoesOn(lines, k);
        }
      } else {
        NoLineLost(lines, i + 1, InListAfter(inList, lines[i]));
        assert parts[1..] == Parts(lines, i + 1, InListAfter(inList, lines[i]));
      }
    }
  }

  /** A line as written, or without its indentation. */
  predicate Kept(text: string, line: string) {
    text == line || (text == Dedent(line) && (Indented(line) || IsBlank(line)))
  }

  /** The texts are the lines from `i` to `j`. */
  ghost predicate AllKept(texts: seq<string>, lines: seq<string>, i: nat, j: nat) {
    i + |texts| == j <= |lines| && forall k :: 0 <= k < |texts| ==> Kept(texts[k], lines[i + k])
  }

  /** What is picked out of a text, the marks saying which lines. */
  function Pick(out: seq<string>, marks: seq<bool>): seq<string>
    requires |out| == |marks|
  {
    if |out| == 0 then [] else (if marks[0] then [out[0]] else []) + Pick(out[1..], marks[1..])
  }

  /** Lines marked as not the text's are a fence or blank. */
  predicate OthersAdded(out: seq<string>, marks: seq<bool>)
    requires |out| == |marks|
  {
    forall k :: 0 <= k < |out| && !marks[k] ==> out[k] == OPENING || out[k] == CLOSING || out[k] == ""
  }

  function MarksOf(p: Part): (r: seq<bool>)
    ensures |r| == |LinesOf(p)| && OthersAdded(LinesOf(p), r)
  {
    match p
    case Line(_) => [true]
    case Block(lines) => [false] + seq(|lines|, _ => true) + [false]
    case Gap => [false]
  }

  function Marks(parts: seq<Part>): (r: seq<bool>)
    ensures |r| == |Written(parts)| && OthersAdded(Written(parts), r)
  {
    if |parts| == 0 then [] else MarksOf(parts[0]) + Marks(parts[1..])
  }

  lemma {:induction false} PickBoth(a: seq<string>, m: seq<bool>, b: seq<string>, n: seq<bool>)
    requires |a| == |m| && |b| == |n|
    ensures Pick(a + b, m + n) == Pick(a, m) + Pick(b, n)
  {
    if |a| == 0 {
      assert a + b == b && m + n == n;
    } else {
      PickBoth(a[1..], m[1..], b, n);
      assert (a + b)[1..] == a[1..] + b && (m + n)[1..] == m[1..] + n;
      Regroup3(if m[0] then [a[0]] else [], Pick(a[1..], m[1..]), Pick(b, n));
    }
  }

  lemma {:induction false} PickAll(a: seq<string>)
    ensures Pick(a, seq(|a|, _ => true)) == a
  {
    if |a| > 0 {
      PickAll(a[1..]);
      assert seq(|a|, _ => true)[1..] == seq(|a[1..]|, _ => true);
    }
  }

  /** The text of a part. */
  function TextOf(p: Part): seq<string> {
    match p
    case Line(text) => [text]
    case Block(lines) => lines
    case Gap => []
  }

  lemma PickPart(p: Part)
    ensures Pick(LinesOf(p), MarksOf(p)) == TextOf(p)
  {
    if p.Block? {
      var inner := seq(|p.lines|, _ => true);
      PickAll(p.lines);
      PickBoth([OPENING], [false], p.lines, inner);
      PickBoth([OPENING] + p.lines, [false] + inner, [CLOSING], [false]);
    }
  }

  function Text(parts: seq<Part>): seq<string> {
    if |parts| == 0 then [] else TextOf(parts[0]) + Text(parts[1..])
  }

  lemma {:induction false} PickText(parts: seq<Part>)
    ensures Pick(Written(parts), Marks(parts)) == Text(parts)
  {
    if |parts| > 0 {
      PickText(parts[1..]);
      PickPart(parts[0]);
      PickBoth(LinesOf(parts[0]), MarksOf(parts[0]), Written(parts[1..]), Marks(parts[1..]));
    }
  }

  lemma {:induction false} TextUngapped(parts: seq<Part>)
    ensures Text(Ungapped(parts)) == Text(parts)
  {
    if |parts| > 0 {
      TextUngapped(parts[1..]);
      if parts[0].Gap? {
        assert [] + Ungapped(parts[1..]) == Ungapped(parts[1..]);
      } else {
        assert ([parts[0]] + Ungapped(parts[1..]))[1..] == Ungapped(parts[1..]);
      }
    }
  }

  lemma KeptBoth(a: seq<string>, b: seq<string>, lines: seq<string>, i: nat, m: nat, j: nat)
    requires AllKept(a, lines, i, m) && AllKept(b, lines, m, j)
    ensures AllKept(a + b, lines, i, j)
  {
    forall k | 0 <= k < |a + b| ensures Kept((a + b)[k], lines[i + k]) {
      assert k >= |a| ==> (a + b)[k] == b[k - |a|] && i + k == m + (k - |a|);
    }
  }

  lemma BlockKept(lines: seq<string>, i: nat)
    requires i <= |lines|
    ensures AllKept(Dedented(lines, i, BlockEnd(lines, i)), lines, i, BlockEnd(lines, i))
  {
    var texts := Dedented(lines, i, BlockEnd(lines, i));
    forall k | 0 <= k < |texts| ensures Kept(texts[k], lines[i + k]) {
      assert GoesOn(lines, i + k);
    }
  }

  lemma TextFirst(p: Part, rest: seq<Part>)
    ensures Text([p] + rest) == TextOf(p) + Text(rest)
  {
    assert ([p] + rest)[1..] == rest;
  }

  lemma {:induction false} PartsKept(lines: seq<string>, i: nat, inList: bool)
    requires i <= |lines|
    ensures AllKept(Text(Parts(lines, i, inList)), lines, i, |lines|)
    decreases |lines| - i
  {
    if i < |lines| {
      if Indented(lines[i]) && !inList {
        var j := BlockEnd(lines, i);
        LineNext(lines, i);
        PartsKept(lines, j, false);
        BlockKept(lines, i);
        TextFirst(Block(Dedented(lines, i, j)), Parts(lines, j, false));
        KeptBoth(Dedented(lines, i, j), Text(Parts(lines, j, false)), lines, i, j, |lines|);
      } else {
        var later := Parts(lines, i + 1, InListAfter(inList, lines[i]));
        PartsKept(lines, i + 1, InListAfter(inList, lines[i]));
        TextFirst(Line(lines[i]), later);
        KeptBoth([lines[i]], Text(later), lines, i, i + 1, |lines|);
      }
    }
  }

  /**
   * Of what is written, some lines are the text's, each kept once and in order; the others
   * are fences and blank lines.
   */
  lemma OutputKeepsLines(lines: seq<string>) returns (marks: seq<bool>)
    ensures var out := Written(Spaced(Parts(lines, 0, false)));
            |marks| == |out| && AllKept(Pick(out, marks), lines, 0, |lines|) && OthersAdded(out, marks)
  {
    var parts := Parts(lines, 0, false);
    marks := Marks(Spaced(parts));
    PickText(Spaced(parts));
    SpacedKeeps(parts);
    TextUngapped(Spaced(parts));
    PartsKept(lines, 0, false);
  }
}
