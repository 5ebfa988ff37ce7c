/**
 * Fences as a CommonMark reader sees them: what is read of the text the generator writes, and
 * of a source between the fences chosen for it.
 */
module FenceReading {
  import opened Fencing
  import opened Prelude

  // --- Reading fences ----------------------------------------------------------------------------------

  function SkipRun(s: string, c: char): (r: string)
    ensures |r| <= |s|
  {
    if |s| > 0 && s[0] == c then SkipRun(s[1..], c) else s
  }

  datatype Fence = Fence(mark: char, length: nat)

  /**
   * CommonMark 0.31, section 4.5: a line opens a fence when, indented by at most three
   * spaces, it begins with three or more backticks or tildes; what follows backticks holds
   * no backtick.
   */
  function Opened(line: string): Option<Fence> {
    var unindented := SkipRun(line, ' ');
    if |line| - |unindented| > 3 || |unindented| == 0 then None
    else
      var after := SkipRun(unindented, unindented[0]);
      var length := |unindented| - |after|;
      if length >= 3 && (unindented[0] == '~' || (unindented[0] == '`' && '`' !in after)) then
        Some(Fence(unindented[0], length))
      else None
  }

  /**
   * A line closes a fence when it is at least as many of its marks, indented by at most three
   * spaces, and nothing but spaces or tabs after them.
   */
  predicate Closes(line: string, fence: Fence) {
    var unindented := SkipRun(line, ' ');
    var after := SkipRun(unindented, fence.mark);
    && |line| - |unindented| <= 3 && |unindented| - |after| >= fence.length
    && forall i :: 0 <= i < |after| ==> after[i] == ' ' || after[i] == '\t'
  }

  /** From `i` to `j` there is nothing but `c`. */
  predicate AllFrom(s: string, i: nat, j: nat, c: char) {
    i <= j <= |s| && forall k :: i <= k < j ==> s[k] == c
  }

  lemma {:induction false} SkipRunIs(s: string, c: char) returns (n: nat)
    ensures AllFrom(s, 0, n, c) && SkipRun(s, c) == s[n..] && (n < |s| ==> s[n] != c)
  {
    n := 0;
    if |s| > 0 && s[0] == c {
      n := SkipRunIs(s[1..], c);
      assert forall k :: 0 < k <= n ==> s[k] == s[1..][k - 1];
      n := n + 1;
      assert s[1..][n - 1..] == s[n..];
    }
  }

  /** Where the first text that is no run of `c` begins. */
  lemma RunEnds(s: string, c: char, n: nat)
    requires AllFrom(s, 0, n, c) && (n < |s| ==> s[n] != c)
    ensures SkipRun(s, c) == s[n..]
  {
    var m := SkipRunIs(s, c);
  }

  /** Up to three spaces, three marks or more and no more, and an info string that fits the mark. */
  ghost predicate OpensAt(line: string, fence: Fence, a: nat) {
    && a <= 3 && AllFrom(line, 0, a, ' ') && fence.length >= 3 && AllFrom(line, a, a + fence.length, fence.mark)
    && (a + fence.length < |line| ==> line[a + fence.length] != fence.mark)
    && (fence.mark == '~' || (fence.mark == '`' && '`' !in line[a + fence.length..]))
  }

  lemma OpenedAt(line: string, fence: Fence) returns (a: nat)
    requires Opened(line) == Some(fence)
    ensures OpensAt(line, fence, a)
  {
    a := SkipRunIs(line, ' ');
    var unindented := line[a..];
    var n := SkipRunIs(unindented, unindented[0]);
    assert unindented[n..] == line[a + n..];
    assert forall k :: 0 <= k < n ==> line[a + k] == unindented[k];
  }

  lemma OpenedThere(line: string, fence: Fence, a: nat)
    requires OpensAt(line, fence, a)
    ensures Opened(line) == Some(fence)
  {
    var unindented := line[a..];
    RunEnds(line, ' ', a);
    RunEnds(unindented, fence.mark, fence.length);
    assert unindented[fence.length..] == line[a + fence.length..];
  }

  lemma OpenedExactly(line: string, fence: Fence)
    ensures Opened(line) == Some(fence) <==> exists a: nat :: OpensAt(line, fence, a)
  {
    if Opened(line) == Some(fence) {
      var a := OpenedAt(line, fence);
    }
    if a: nat :| OpensAt(line, fence, a) {
      OpenedThere(line, fence, a);
    }
  }

  /** Up to three spaces, at least as many marks, and spaces and tabs to the end. */
  ghost predicate ClosesAt(line: string, fence: Fence, a: nat, b: nat) {
    && a <= 3 && AllFrom(line, 0, a, ' ') && a + fence.length <= b && AllFrom(line, a, b, fence.mark)
    && forall k :: b <= k < |line| ==> line[k] == ' ' || line[k] == '\t'
  }

  lemma ClosesExactly(line: string, fence: Fence)
    requires fence.length > 0 && fence.mark != ' ' && fence.mark != '\t'
    ensures Closes(line, fence) <==> exists a: nat, b: nat :: ClosesAt(line, fence, a, b)
  {
    var a := SkipRunIs(line, ' ');
    var unindented := line[a..];
    assert forall k :: 0 <= k < |unindented| ==> unindented[k] == line[a + k];
    var n := SkipRunIs(unindented, fence.mark);
    assert unindented[n..] == line[a + n..];
    if Closes(line, fence) {
      forall k | a + n <= k < |line| ensures line[k] == ' ' || line[k] == '\t' {
        assert line[k] == unindented[n..][k - a - n];
      }
      assert ClosesAt(line, fence, a, a + n);
    }
    if c: nat, b: nat :| ClosesAt(line, fence, c, b) {
      assert line[c] == fence.mark && a == c;
      RunEnds(unindented, fence.mark, b - a);
      assert unindented[b - a..] == line[b..];
    }
  }

  /** What a reader takes for the contents of a fence, and the lines after it. */
  function ReadFence(lines: seq<string>, fence: Fence): (r: (seq<string>, seq<string>))
    ensures |r.1| <= |lines|
  {
    if |lines| == 0 then ([], [])
    else if Closes(lines[0], fence) then ([], lines[1..])
    else
      var later := ReadFence(lines[1..], fence);
      ([lines[0]] + later.0, later.1)
  }

  /** What a reader takes a text for: fenced blocks, and lines outside them. */
  function ReadText(lines: seq<string>): seq<Part>
    decreases |lines|
  {
    if |lines| == 0 then []
    else
      match Opened(lines[0])
      case None => [Line(lines[0])] + ReadText(lines[1..])
      case Some(fence) =>
        var inner := ReadFence(lines[1..], fence);
        [Block(inner.0)] + ReadText(inner.1)
  }

  /** A fenced block is read back exactly when none of its lines closes the fence. */
  lemma {:induction false} FenceReadExactly(block: seq<string>, fence: Fence, closing: string, rest: seq<string>)
    requires Closes(closing, fence)
    ensures ReadFence(block + [closing] + rest, fence) == (block, rest) <==>
        forall k :: 0 <= k < |block| ==> !Closes(block[k], fence)
    ensures ReadFence(block + [closing] + rest, fence).0 == block <==>
        forall k :: 0 <= k < |block| ==> !Closes(block[k], fence)
  {
    var all := block + [closing] + rest;
    if |block| == 0 {
      assert all[0] == closing && all[1..] == rest;
    } else {
      var tail := block[1..];
      assert all[0] == block[0] && all[1..] == tail + [closing] + rest;
      FenceReadExactly(tail, fence, closing, rest);
      assert block == [block[0]] + tail;
      if forall k :: 0 <= k < |tail| ==> !Closes(tail[k], fence) {
        assert forall k :: 0 <= k < |block| ==> block[k] == if k == 0 then block[0] else tail[k - 1];
      } else {
        var k :| 0 <= k < |tail| && Closes(tail[k], fence);
        assert block[k + 1] == tail[k];
      }
    }
  }

  // --- Reading what is written -----------------------------------------------------------------------

  function Ticks(n: nat): string {
    seq(n, _ => '`')
  }

  lemma {:induction false} SkipTicks(n: nat, rest: string)
    requires |rest| > 0 ==> rest[0] != '`'
    ensures SkipRun(Ticks(n) + rest, '`') == rest
  {
    if n == 0 {
      assert Ticks(n) + rest == rest;
    } else {
      SkipTicks(n - 1, rest);
      assert (Ticks(n) + rest)[1..] == Ticks(n - 1) + rest;
    }
  }

  /** Three or more backticks open a fence, whatever word follows them, and close it. */
  lemma TicksFence(n: nat, info: string)
    requires n >= 3 && '`' !in info
    ensures Opened(Ticks(n) + info) == Some(Fence('`', n)) && Closes(Ticks(n), Fence('`', n))
  {
    SkipTicks(n, info);
    SkipTicks(n, "");
    assert Ticks(n) + "" == Ticks(n);
    assert SkipRun(Ticks(n) + info, ' ') == Ticks(n) + info;
    assert SkipRun(Ticks(n), ' ') == Ticks(n);
  }

  const THREE := Fence('`', 3)

  lemma BlockFence()
    ensures Opened(OPENING) == Some(THREE) && Closes(CLOSING, THREE)
  {
    TicksFence(3, "sh");
    assert OPENING == Ticks(3) + "sh" && CLOSING == Ticks(3);
  }

  /** A line outside the fences that opens none, a line inside that closes none. */
  ghost predicate Intact(p: Part) {
    match p
    case Line(text) => Opened(text).None?
    case Block(lines) => forall k :: 0 <= k < |lines| ==> !Closes(lines[k], THREE)
    case Gap => true
  }

  ghost predicate AllIntact(parts: seq<Part>) {
    forall i :: 0 <= i < |parts| ==> Intact(parts[i])
  }

  /** The parts as a reader sees them: a gap is a blank line. */
  function Seen(parts: seq<Part>): seq<Part> {
    if |parts| == 0 then [] else [if parts[0].Gap? then Line("") else parts[0]] + Seen(parts[1..])
  }

  lemma IntactFirst(parts: seq<Part>)
    requires |parts| > 0
    ensures AllIntact(parts) <==> Intact(parts[0]) && AllIntact(parts[1..])
  {
    assert forall i :: 0 < i < |parts| ==> parts[i] == parts[1..][i - 1];
    if Intact(parts[0]) && AllIntact(parts[1..]) {
      forall i | 0 <= i < |parts| ensures Intact(parts[i]) {
        assert i > 0 ==> Intact(parts[1..][i - 1]);
      }
    }
    if AllIntact(parts) {
      forall i | 0 <= i < |parts[1..]| ensures Intact(parts[1..][i]) {
        assert Intact(parts[i + 1]);
      }
    }
  }

  /** A block and what follows it, read. */
  lemma ReadBlock(block: seq<string>, rest: seq<string>)
    ensures var r := ReadFence(block + [CLOSING] + rest, THREE);
            && ReadText(LinesOf(Block(block)) + rest) == [Block(r.0)] + ReadText(r.1)
            && (Intact(Block(block)) ==> r == (block, rest)) && (r.0 == block ==> Intact(Block(block)))
  {
    var inner := block + [CLOSING] + rest;
    BlockFence();
    ReadOpened(OPENING, THREE, inner);
    assert LinesOf(Block(block)) + rest == [OPENING] + inner;
    FenceReadExactly(block, THREE, CLOSING, rest);
  }

  lemma ReadOpened(opening: string, fence: Fence, inner: seq<string>)
    requires Opened(opening) == Some(fence)
    ensures var r := ReadFence(inner, fence); ReadText([opening] + inner) == [Block(r.0)] + ReadText(r.1)
  {
    assert ([opening] + inner)[1..] == inner;
  }

  lemma ReadLine(text: string, rest: seq<string>)
    ensures Opened(text).None? ==> ReadText([text] + rest) == [Line(text)] + ReadText(rest)
    ensures Opened(text).Some? ==> |ReadText([text] + rest)| > 0 && ReadText([text] + rest)[0].Block?
  {
    assert ([text] + rest)[1..] == rest;
  }

  lemma BlankOpensNone()
    ensures Opened("").None?
  {
  }

  lemma HeadTail<T>(a: T, b: T, x: seq<T>, y: seq<T>)
    ensures [a] + x == [b] + y <==> a == b && x == y
  {
    if [a] + x == [b] + y {
      assert ([a] + x)[0] == ([b] + y)[0];
      assert ([a] + x)[1..] == x && ([b] + y)[1..] == y;
    }
  }

  /** Parts are read back exactly when they are intact. */
  lemma {:induction false} ReadExactly(parts: seq<Part>)
    ensures ReadText(Written(parts)) == Seen(parts) <==> AllIntact(parts)
  {
    if |parts| > 0 {
      var rest := Written(parts[1..]);
      ReadExactly(parts[1..]);
      IntactFirst(parts);
      match parts[0]
      case Line(text) =>
        ReadLine(text, rest);
        HeadTail(Line(text), Line(text), ReadText(rest), Seen(parts[1..]));
      case Gap =>
        BlankOpensNone();
        ReadLine("", rest);
        HeadTail(Line(""), Line(""), ReadText(rest), Seen(parts[1..]));
      case Block(block) =>
        var r := ReadFence(block + [CLOSING] + rest, THREE);
        ReadBlock(block, rest);
        HeadTail(Block(r.0), Block(block), ReadText(r.1), Seen(parts[1..]));
    }
  }

  lemma {:induction false} GapsIntact(parts: seq<Part>)
    ensures AllIntact(Spaced(parts)) <==> AllIntact(parts)
  {
    if |parts| > 0 {
      var p, rest := parts[0], parts[1..];
      GapsIntact(rest);
      IntactFirst(parts);
      assert parts == [p] + rest;
      SpacedUnfolds(p, rest);
      var later := Between(p, rest) + Spaced(rest);
      IntactFirst([p] + later);
      assert ([p] + later)[1..] == later;
      if Between(p, rest) == [] {
        assert later == Spaced(rest);
      } else {
        IntactFirst(later);
        assert later[1..] == Spaced(rest);
      }
    }
  }

  /**
   * What is written for a text is read as its parts, a gap being a blank line, exactly when no
   * line left as it was opens a fence and no line of a block closes three backticks.
   */
  lemma OutputReadExactly(lines: seq<string>)
    ensures var parts := Parts(lines, 0, false);
            ReadText(Written(Spaced(parts))) == Seen(Spaced(parts)) <==> AllIntact(parts)
  {
    ReadExactly(Spaced(Parts(lines, 0, false)));
    GapsIntact(Parts(lines, 0, false));
  }

  /** A text that is not: an indented block of three backticks is read as two empty ones. */
  lemma BackticksMisread()
    ensures Parts(["    ```"], 0, false) == [Block(["```"])]
    ensures Written(Spaced([Block(["```"])])) == ["```sh", "```", "```"]
    ensures ReadText(["```sh", "```", "```"]) == [Block([]), Block([])]
  {
    var line := "    ```";
    assert Indented(line) && Dedent(line) == "```";
    assert GoesOn([line], 0) && !GoesOn([line], 1);
    assert Dedented([line], 0, 1) == ["```"];
    BlockFence();
    ReadBlock(["```"], []);
    assert ReadFence(["```", "```"], THREE) == ([], ["```"]);
    TicksFence(3, "");
    assert Ticks(3) + "" == CLOSING;
    assert ReadText(["```"]) == [Block([])];
  }

  // --- The fence around an example's source -----------------------------------------------------

  /** The length of the run of backticks a text begins with. */
  function LeadingRun(text: string): nat {
    if |text| > 0 && text[0] == '`' then 1 + LeadingRun(text[1..]) else 0
  }

  function LongestRun(text: string): nat {
    if |text| == 0 then 0
    else
      var here, later := LeadingRun(text), LongestRun(text[1..]);
      if here > later then here else later
  }

  function FenceFor(text: string): string {
    var n := LongestRun(text) + 1;
    Ticks(if n > 3 then n else 3)
  }

  predicate RunAt(text: string, i: nat, n: nat) {
    i + n <= |text| && forall j :: i <= j < i + n ==> text[j] == '`'
  }

  lemma {:induction false} RunLength(text: string, n: nat)
    requires RunAt(text, 0, n)
    ensures LeadingRun(text) >= n
  {
    if n > 0 {
      RunLength(text[1..], n - 1);
    }
  }

  /** No run of backticks in the text is as long as its fence, so none closes it. */
  lemma {:induction false} FenceHolds(text: string, i: nat)
    ensures !RunAt(text, i, |FenceFor(text)|)
  {
    if RunAt(text, i, |FenceFor(text)|) {
      RunBound(text, i, |FenceFor(text)|);
    }
  }

  /** And a shorter fence of three or more would not do. */
  lemma FenceShortest(text: string) returns (i: nat)
    ensures var n := |FenceFor(text)|; FenceFor(text) == Ticks(n) && n >= 3 && (n > 3 ==> RunAt(text, i, n - 1))
  {
    i := LongestAt(text);
  }

  lemma {:induction false} LongestAt(text: string) returns (i: nat)
    ensures RunAt(text, i, LongestRun(text))
  {
    i := 0;
    if |text| > 0 {
      LeadingAt(text);
      if LeadingRun(text) <= LongestRun(text[1..]) {
        i := LongestAt(text[1..]);
        assert forall j :: i <= j < i + LongestRun(text[1..]) ==> text[j + 1] == text[1..][j];
        i := i + 1;
      }
    }
  }

  lemma {:induction false} LeadingAt(text: string)
    ensures RunAt(text, 0, LeadingRun(text))
  {
    if |text| > 0 && text[0] == '`' {
      LeadingAt(text[1..]);
      assert forall j :: 0 < j < LeadingRun(text) ==> text[j] == text[1..][j - 1];
    }
  }

  lemma {:induction false} RunBound(text: string, i: nat, n: nat)
    requires RunAt(text, i, n)
    ensures n <= LongestRun(text)
  {
    if i == 0 {
      RunLength(text, n);
    } else if |text| > 0 {
      assert RunAt(text[1..], i - 1, n);
      RunBound(text[1..], i - 1, n);
    }
  }

  lemma {:induction false} LeadingIs(s: string)
    ensures LeadingRun(s) == |s| - |SkipRun(s, '`')|
  {
    if |s| > 0 && s[0] == '`' {
      LeadingIs(s[1..]);
    }
  }

  lemma {:induction false} LongestUnindented(s: string)
    ensures LongestRun(SkipRun(s, ' ')) <= LongestRun(s)
  {
    if |s| > 0 && s[0] == ' ' {
      LongestUnindented(s[1..]);
    }
  }

  /** A line that closes a fence of backticks holds a run as long. */
  lemma ClosingRun(line: string, n: nat)
    requires Closes(line, Fence('`', n))
    ensures n <= LongestRun(line)
  {
    LongestUnindented(line);
    LeadingIs(SkipRun(line, ' '));
  }

  lemma {:induction false} LeadingInFirst(text: string)
    ensures LeadingRun(Split(text, '\n')[0]) <= LeadingRun(text)
  {
    if |text| > 0 && text[0] == '`' {
      LeadingInFirst(text[1..]);
      assert ([text[0]] + Split(text[1..], '\n')[0])[1..] == Split(text[1..], '\n')[0];
    }
  }

  /** No line of a text holds a longer run than the text. */
  lemma {:induction false} LongestInLine(text: string, k: nat)
    requires k < |Split(text, '\n')|
    ensures LongestRun(Split(text, '\n')[k]) <= LongestRun(text)
  {
    if |text| > 0 {
      var later := Split(text[1..], '\n');
      if text[0] == '\n' {
        if k > 0 {
          LongestInLine(text[1..], k - 1);
        }
      } else {
        LongestInLine(text[1..], k);
        if k == 0 {
          LeadingInFirst(text);
          assert ([text[0]] + later[0])[1..] == later[0];
        }
      }
    }
  }

  lemma FenceIsTicks(text: string, info: string)
    requires '`' !in info
    ensures var fence := FenceFor(text);
            Opened(fence + info) == Some(Fence('`', |fence|)) && Closes(fence, Fence('`', |fence|)) && '\n' !in fence
  {
    TicksFence(|FenceFor(text)|, info);
  }

  lemma JoinFirst(first: string, more: seq<string>, at: char)
    requires |more| > 0
    ensures Split(Join([first] + more, at), at) == Split(first, at) + Split(Join(more, at), at)
  {
    assert ([first] + more)[1..] == more;
    SplitBoth(first, Join(more, at), at);
  }

  /** A document of a line, a text, a line and more is split into their lines. */
  lemma DocumentLines(opening: string, text: string, closing: string, rest: seq<string>)
    requires '\n' !in opening && '\n' !in closing && |rest| > 0
    ensures Split(Join([opening, text, closing] + rest, '\n'), '\n') ==
            [opening] + (Split(text, '\n') + [closing] + Split(Join(rest, '\n'), '\n'))
  {
    assert [opening, text, closing] + rest == [opening] + ([text] + ([closing] + rest));
    JoinFirst(opening, [text] + ([closing] + rest), '\n');
    JoinFirst(text, [closing] + rest, '\n');
    JoinFirst(closing, rest, '\n');
    SplitPart(opening, "", '\n');
    SplitPart(closing, "", '\n');
    Regroup3(Split(text, '\n'), [closing], Split(Join(rest, '\n'), '\n'));
  }

  /**
   * A text between its fences, in the lines of a page, is read back: one block, whose lines
   * are the text, and after it the rest of the page.
   */
  lemma SourceReadBack(text: string, info: string, rest: seq<string>)
    requires '`' !in info && '\n' !in info && |rest| > 0
    ensures var fence := FenceFor(text);
            var page := Join([fence + info, text, fence] + rest, '\n');
            ReadText(Split(page, '\n')) == [Block(Split(text, '\n'))] + ReadText(Split(Join(rest, '\n'), '\n'))
    ensures Join(Split(text, '\n'), '\n') == text
  {
    var fence, lines, more := FenceFor(text), Split(text, '\n'), Split(Join(rest, '\n'), '\n');
    FenceIsTicks(text, info);
    DocumentLines(fence + info, text, fence, rest);
    forall k | 0 <= k < |lines| ensures !Closes(lines[k], Fence('`', |fence|)) {
      if Closes(lines[k], Fence('`', |fence|)) {
        ClosingRun(lines[k], |fence|);
        LongestInLine(text, k);
      }
    }
    FenceReadExactly(lines, Fence('`', |fence|), fence, more);
    ReadOpened(fence + info, Fence('`', |fence|), lines + [fence] + more);
    JoinSplit(text, '\n');
  }
}
