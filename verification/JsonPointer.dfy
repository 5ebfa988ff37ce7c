/**
 * JSON Pointers (RFC 6901) as `pointerSegments` reads them: two global replacements,
 * one after the other, where the standard decodes in one pass.
 */
module JsonPointer {
  import opened Prelude

  predicate Starts(s: string, digit: char) {
    |s| >= 2 && s[0] == '~' && s[1] == digit
  }

  /** `s.replace(/~d/g, c)` */
  function ReplaceAll(s: string, digit: char, c: char): string {
    if |s| == 0 then []
    else if Starts(s, digit) then [c] + ReplaceAll(s[2..], digit, c)
    else [s[0]] + ReplaceAll(s[1..], digit, c)
  }

  /** What is done to one segment. */
  function Unescape(s: string): string {
    ReplaceAll(ReplaceAll(s, '1', '/'), '0', '~')
  }

  function UnescapeAll(parts: seq<string>): (r: seq<string>)
    ensures |r| == |parts| && forall i :: 0 <= i < |parts| ==> r[i] == Unescape(parts[i])
  {
    if |parts| == 0 then [] else [Unescape(parts[0])] + UnescapeAll(parts[1..])
  }

  function PointerSegments(pointer: string): Option<seq<string>> {
    if |pointer| == 0 || pointer[0] != '/' || pointer == "/" then None
    else
      var segments := UnescapeAll(Split(pointer[1..], '/'));
      if "" in segments then None else Some(segments)
  }

  // --- The standard's side ---------------------------------------------------------------------

  /** Section 4: one pass over the segment; a `~` that begins no escape stands for itself. */
  function Decode(s: string): string {
    if |s| == 0 then []
    else if Starts(s, '1') then ['/'] + Decode(s[2..])
    else if Starts(s, '0') then ['~'] + Decode(s[2..])
    else [s[0]] + Decode(s[1..])
  }

  /** Section 3: every `~` begins an escape. */
  predicate WellEscaped(s: string) {
    |s| == 0 ||
    if s[0] == '~' then (Starts(s, '0') || Starts(s, '1')) && WellEscaped(s[2..]) else WellEscaped(s[1..])
  }

  /** Section 3: a segment's text in a pointer. */
  function Encode(s: string): string {
    if |s| == 0 then []
    else (if s[0] == '~' then "~0" else if s[0] == '/' then "~1" else [s[0]]) + Encode(s[1..])
  }

  function EncodePointer(segments: seq<string>): string {
    if |segments| == 0 then "" else "/" + Encode(segments[0]) + EncodePointer(segments[1..])
  }

  // --- One segment -------------------------------------------------------------------------------

  /** The first replacement makes no escape of the second's. */
  lemma FirstKeeps(s: string)
    ensures Starts(ReplaceAll(s, '1', '/'), '0') <==> Starts(s, '0')
    ensures Starts(s, '0') ==> ReplaceAll(s, '1', '/')[2..] == ReplaceAll(s[2..], '1', '/')
  {
    if Starts(s, '0') {
      assert s[1..][1..] == s[2..];
    }
  }

  /** Replacing twice is decoding once: no `~01` becomes a `/`. */
  lemma {:induction false} UnescapeDecodes(s: string)
    ensures Unescape(s) == Decode(s)
  {
    if |s| > 0 {
      var first := ReplaceAll(s, '1', '/');
      FirstKeeps(s);
      if Starts(s, '1') {
        UnescapeDecodes(s[2..]);
        assert first[1..] == ReplaceAll(s[2..], '1', '/');
      } else if Starts(s, '0') {
        UnescapeDecodes(s[2..]);
      } else {
        UnescapeDecodes(s[1..]);
        assert first[1..] == ReplaceAll(s[1..], '1', '/');
      }
    }
  }

  lemma {:induction false} DecodeEncode(s: string)
    ensures Decode(Encode(s)) == s
    ensures WellEscaped(Encode(s)) && '/' !in Encode(s)
  {
    if |s| > 0 {
      DecodeEncode(s[1..]);
      var e := Encode(s);
      if s[0] == '~' || s[0] == '/' {
        assert e[2..] == Encode(s[1..]);
      } else {
        assert e[1..] == Encode(s[1..]);
      }
    }
  }

  /** Encoding gives a segment's text back exactly when the text is well escaped. */
  lemma {:induction false} EncodeDecode(s: string)
    requires '/' !in s
    ensures Encode(Decode(s)) == s <==> WellEscaped(s)
  {
    if |s| > 0 {
      var d := Decode(s);
      if Starts(s, '1') || Starts(s, '0') {
        EncodeDecode(s[2..]);
        assert d[1..] == Decode(s[2..]);
        assert s == s[..2] + s[2..];
      } else {
        EncodeDecode(s[1..]);
        assert d[1..] == Decode(s[1..]) && d[0] == s[0];
        if s[0] == '~' {
          assert Encode(d)[1] == '0';
        } else {
          assert s == [s[0]] + s[1..];
          assert Encode(d) == [s[0]] + Encode(d[1..]);
        }
      }
    }
  }

  // --- Whole pointers ---------------------------------------------------------------------------

  /** A text of segments is split where they were joined. */
  lemma {:induction false} SplitEncoded(segments: seq<string>)
    requires |segments| > 0
    ensures UnescapeAll(Split(EncodePointer(segments)[1..], '/')) == segments
  {
    var first, rest := Encode(segments[0]), EncodePointer(segments[1..]);
    DecodeEncode(segments[0]);
    UnescapeDecodes(first);
    Regroup3("/", first, rest);
    assert EncodePointer(segments)[1..] == first + rest;
    if |segments| == 1 {
      SplitPart(first, "", '/');
      assert first + rest == first;
    } else {
      SplitEncoded(segments[1..]);
      assert rest == "/" + rest[1..];
      Regroup3(first, "/", rest[1..]);
      SplitPart(first, rest[1..], '/');
      assert Split(first + rest, '/') == [first] + Split(rest[1..], '/');
    }
  }

  /** Reading a pointer back gives the segments it was written from. */
  lemma PointerRoundTrip(segments: seq<string>)
    requires |segments| > 0 && "" !in segments
    ensures PointerSegments(EncodePointer(segments)) == Some(segments)
  {
    SplitEncoded(segments);
    DecodeEncode(segments[0]);
    assert segments[0] in segments;
    assert |Encode(segments[0])| > 0;
    assert |EncodePointer(segments)| > 1;
  }

  function JoinParts(parts: seq<string>): string {
    if |parts| == 0 then "" else "/" + parts[0] + JoinParts(parts[1..])
  }

  lemma {:induction false} JoinPartsIs(parts: seq<string>)
    requires |parts| > 0
    ensures JoinParts(parts) == "/" + Join(parts, '/')
  {
    if |parts| > 1 {
      JoinPartsIs(parts[1..]);
      Regroup3("/", parts[0], "/" + Join(parts[1..], '/'));
      Regroup3(parts[0], "/", Join(parts[1..], '/'));
    } else {
      assert JoinParts(parts[1..]) == "";
    }
  }

  /** Section 3: every segment of the pointer is well escaped. */
  predicate WellEscapedPointer(pointer: string) {
    |pointer| > 0 && AllWellEscaped(Split(pointer[1..], '/'))
  }

  predicate AllWellEscaped(parts: seq<string>) {
    forall i :: 0 <= i < |parts| ==> WellEscaped(parts[i])
  }

  lemma {:induction false} EncodeParts(parts: seq<string>)
    requires forall i :: 0 <= i < |parts| ==> '/' !in parts[i]
    ensures AllWellEscaped(parts) ==> EncodePointer(UnescapeAll(parts)) == JoinParts(parts)
  {
    if |parts| > 0 && AllWellEscaped(parts) {
      EncodeParts(parts[1..]);
      UnescapeDecodes(parts[0]);
      EncodeDecode(parts[0]);
      assert UnescapeAll(parts)[1..] == UnescapeAll(parts[1..]);
    }
  }

  lemma {:induction false} EncodedWell(segments: seq<string>)
    requires |segments| > 0
    ensures WellEscapedPointer(EncodePointer(segments))
  {
    var first, rest := Encode(segments[0]), EncodePointer(segments[1..]);
    DecodeEncode(segments[0]);
    Regroup3("/", first, rest);
    assert EncodePointer(segments)[1..] == first + rest;
    if |segments| == 1 {
      SplitPart(first, "", '/');
      assert first + rest == first;
    } else {
      EncodedWell(segments[1..]);
      assert rest == "/" + rest[1..];
      Regroup3(first, "/", rest[1..]);
      SplitPart(first, rest[1..], '/');
    }
  }

  /** A pointer is the encoding of the segments read from it exactly when it is well escaped. */
  lemma EncodesBackExactly(pointer: string)
    requires PointerSegments(pointer).Some?
    ensures EncodePointer(PointerSegments(pointer).value) == pointer <==> WellEscapedPointer(pointer)
  {
    var parts := Split(pointer[1..], '/');
    SplitFree(pointer[1..], '/');
    EncodeParts(parts);
    JoinSplit(pointer[1..], '/');
    JoinPartsIs(parts);
    assert pointer == "/" + pointer[1..];
    EncodedWell(PointerSegments(pointer).value);
  }

  /** The segments are the decoded parts of the text behind its first `/`, none of them empty. */
  ghost predicate PointsWith(pointer: string, parts: seq<string>, segments: seq<string>) {
    && |parts| > 0 && |segments| == |parts| && pointer == "/" + Join(parts, '/')
    && forall i :: 0 <= i < |parts| ==> '/' !in parts[i] && segments[i] == Decode(parts[i]) && segments[i] != ""
  }

  /** A pointer is read as exactly the segments it points with, and not at all where there are none. */
  lemma SegmentsExactly(pointer: string, segments: seq<string>)
    ensures PointerSegments(pointer) == Some(segments) <==> exists parts :: PointsWith(pointer, parts, segments)
  {
    if PointerSegments(pointer) == Some(segments) {
      PointerParts(pointer, segments);
    }
    if parts :| PointsWith(pointer, parts, segments) {
      PartsPointed(pointer, parts, segments);
    }
  }

  lemma PointerParts(pointer: string, segments: seq<string>)
    requires PointerSegments(pointer) == Some(segments)
    ensures PointsWith(pointer, Split(pointer[1..], '/'), segments)
  {
    var parts := Split(pointer[1..], '/');
    JoinSplit(pointer[1..], '/');
    SplitFree(pointer[1..], '/');
    assert pointer == [pointer[0]] + pointer[1..];
    forall i | 0 <= i < |parts| ensures segments[i] == Decode(parts[i]) && segments[i] != "" {
      UnescapeDecodes(parts[i]);
    }
  }

  lemma PartsPointed(pointer: string, parts: seq<string>, segments: seq<string>)
    requires PointsWith(pointer, parts, segments)
    ensures PointerSegments(pointer) == Some(segments)
  {
    assert pointer[1..] == Join(parts, '/');
    forall p | p in parts ensures '/' !in p {
      var i :| 0 <= i < |parts| && parts[i] == p;
    }
    SplitJoined(parts, '/');
    forall i | 0 <= i < |parts| ensures segments[i] == Unescape(parts[i]) {
      UnescapeDecodes(parts[i]);
    }
    assert UnescapeAll(parts) == segments;
  }

  // --- Which pointers read alike ------------------------------------------------------------------

  /** A segment's text with each `~` that begins no escape escaped. */
  function Tidy(s: string): string {
    if |s| == 0 then []
    else if Starts(s, '0') || Starts(s, '1') then s[..2] + Tidy(s[2..])
    else (if s[0] == '~' then "~0" else [s[0]]) + Tidy(s[1..])
  }

  function TidyAll(parts: seq<string>): seq<string> {
    if |parts| == 0 then [] else [Tidy(parts[0])] + TidyAll(parts[1..])
  }

  function TidyPointer(pointer: string): string {
    if |pointer| == 0 then "" else JoinParts(TidyAll(Split(pointer[1..], '/')))
  }

  lemma {:induction false} TidyEncodes(s: string)
    requires '/' !in s
    ensures Tidy(s) == Encode(Decode(s))
  {
    if |s| > 0 {
      var d := Decode(s);
      if Starts(s, '1') || Starts(s, '0') {
        TidyEncodes(s[2..]);
        assert d[1..] == Decode(s[2..]);
        assert s[..2] == [s[0], s[1]];
      } else {
        TidyEncodes(s[1..]);
        assert d[1..] == Decode(s[1..]) && d[0] == s[0];
      }
    }
  }

  lemma {:induction false} TidyParts(parts: seq<string>)
    requires forall i :: 0 <= i < |parts| ==> '/' !in parts[i]
    ensures JoinParts(TidyAll(parts)) == EncodePointer(UnescapeAll(parts))
  {
    if |parts| > 0 {
      TidyParts(parts[1..]);
      TidyEncodes(parts[0]);
      UnescapeDecodes(parts[0]);
      assert UnescapeAll(parts)[1..] == UnescapeAll(parts[1..]);
      assert TidyAll(parts)[1..] == TidyAll(parts[1..]);
    }
  }

  /** Tidying a pointer is writing it anew from what is read. */
  lemma TidyIsEncoded(pointer: string)
    requires PointerSegments(pointer).Some?
    ensures TidyPointer(pointer) == EncodePointer(PointerSegments(pointer).value)
    ensures TidyPointer(pointer) == pointer <==> WellEscapedPointer(pointer)
  {
    SplitFree(pointer[1..], '/');
    TidyParts(Split(pointer[1..], '/'));
    EncodesBackExactly(pointer);
  }

  /** Two pointers read alike exactly when, tidied, they are one text. */
  lemma ReadAlikeExactly(p: string, q: string)
    requires PointerSegments(p).Some? && PointerSegments(q).Some?
    ensures PointerSegments(p) == PointerSegments(q) <==> TidyPointer(p) == TidyPointer(q)
  {
    TidyIsEncoded(p);
    TidyIsEncoded(q);
    PointerRoundTrip(PointerSegments(p).value);
    PointerRoundTrip(PointerSegments(q).value);
  }

  /** Distinct well-escaped pointers are read as distinct segments. */
  lemma PointersInjective(p: string, q: string)
    requires WellEscapedPointer(p) && WellEscapedPointer(q)
    requires PointerSegments(p).Some? && PointerSegments(p) == PointerSegments(q)
    ensures p == q
  {
    EncodesBackExactly(p);
    EncodesBackExactly(q);
  }

  /** A pointer that is not well escaped reads as a well-escaped one does. */
  lemma IllEscapedCollides(pointer: string) returns (other: string)
    requires PointerSegments(pointer).Some? && !WellEscapedPointer(pointer)
    ensures other != pointer && WellEscapedPointer(other) && PointerSegments(other) == PointerSegments(pointer)
  {
    var segments := PointerSegments(pointer).value;
    other := EncodePointer(segments);
    EncodesBackExactly(pointer);
    EncodedWell(segments);
    PointerRoundTrip(segments);
  }

  lemma LoneTilde()
    ensures Decode("a~b") == "a~b" && !WellEscaped("a~b")
  {
    assert "a~b"[1..] == "~b" && "~b"[1..] == "b";
    assert Decode("b") == "b";
    assert Decode("~b") == "~b";
  }

  /** Such a pointer, by example. */
  lemma LoneTildeIsRead()
    ensures PointerSegments("/a~b") == Some(["a~b"]) && !WellEscapedPointer("/a~b")
  {
    assert "/a~b"[1..] == "a~b";
    SplitPart("a~b", "", '/');
    UnescapeDecodes("a~b");
    LoneTilde();
    assert UnescapeAll(["a~b"]) == ["a~b"];
    assert !WellEscaped(Split("a~b", '/')[0]);
  }

  /** The pointer it reads alike with. */
  lemma EscapedTildeIsRead()
    ensures PointerSegments("/a~0b") == Some(["a~b"]) && "/a~0b" != "/a~b"
  {
    assert "/a~0b"[1..] == "a~0b";
    SplitPart("a~0b", "", '/');
    UnescapeDecodes("a~0b");
    assert "a~0b"[1..] == "~0b" && "~0b"[2..] == "b" && "b"[1..] == "";
    assert Decode("b") == "b";
    assert Decode("~0b") == "~b";
    assert Decode("a~0b") == "a~b";
    assert UnescapeAll(["a~0b"]) == ["a~b"];
    assert "/a~0b"[3] != "/a~b"[3];
  }

  lemma DecodeByExample()
    ensures Decode("a~1b") == "a/b" && Decode("01") == "01"
  {
    assert "a~1b"[1..] == "~1b" && "~1b"[2..] == "b" && "b"[1..] == "" && "01"[1..] == "1" && "1"[1..] == "";
    assert Decode("b") == "b" && Decode("1") == "1";
    assert Decode("~1b") == "/b";
  }

  lemma PartsByExample()
    ensures Join(["a~1b", "01"], '/') == "a~1b/01"
  {
    assert ["a~1b", "01"][1..] == ["01"];
    assert "a~1b" + "/" + "01" == "a~1b/01";
  }

  /** A pointer of two segments, one of them with a slash. */
  lemma PointerByExample()
    ensures PointerSegments("/a~1b/01") == Some(["a/b", "01"])
  {
    DecodeByExample();
    PartsByExample();
    assert "/" + "a~1b/01" == "/a~1b/01";
    PartsPointed("/a~1b/01", ["a~1b", "01"], ["a/b", "01"]);
  }
}
