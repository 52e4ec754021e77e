/** `LineDecoder` of httpxp/_decoders.py, and the loop of `Response.iter_lines` that drives it. */
module Lines {
  import opened Prelude
  import opened TextLines

  lemma SplitNonempty(s: string)
    requires s != ""
    ensures |SplitLines(s)| > 0
  {
  }

  lemma BreakWidthOf(u: string, rest: string)
    requires u != ""
    requires u[|u| - 1] == '\r' ==> rest == "" || rest[0] != '\n'
    ensures var w := BreakWidth(u);
            BreakWidth(u + rest) == w && (u + rest)[w..] == u[w..] + rest
  {
    assert |u| == 1 && rest != "" ==> (u + rest)[1] == rest[0];
    assert |u| > 1 ==> (u + rest)[1] == u[1];
  }

  lemma ExtendAppend(c: char, a: seq<string>, b: seq<string>)
    requires |a| > 0
    ensures Extend(c, a + b) == Extend(c, a) + b
  {
  }

  lemma ClosedBreak(u: string, rest: string, t: string)
    requires u != "" && IsNewline(u[0]) && t == u[BreakWidth(u)..]
    requires u[|u| - 1] == '\r' ==> rest == "" || rest[0] != '\n'
    requires SplitLines(t + rest) == SplitLines(t) + SplitLines(rest)
    ensures SplitLines(u + rest) == SplitLines(u) + SplitLines(rest)
  {
    hide IsNewline, SplitLines;
    BreakWidthOf(u, rest);
    SplitBreak(u, t);
    SplitBreak(u + rest, t + rest);
  }

  lemma ClosedChar(c: char, t: string, rest: string)
    requires t != "" && !IsNewline(c)
    requires SplitLines(t + rest) == SplitLines(t) + SplitLines(rest)
    ensures SplitLines([c] + t + rest) == SplitLines([c] + t) + SplitLines(rest)
  {
    hide IsNewline, SplitLines, Extend;
    SplitChar(c, t);
    SplitChar(c, t + rest);
    SplitNonempty(t);
    ExtendAppend(c, SplitLines(t), SplitLines(rest));
    assert [c] + t + rest == [c] + (t + rest);
  }

  /** Text that ends at a line boundary is split off whole. */
  lemma {:induction false} ClosedLines(u: string, rest: string)
    requires u == "" || IsNewline(u[|u| - 1])
    requires u != "" && u[|u| - 1] == '\r' ==> rest == "" || rest[0] != '\n'
    ensures SplitLines(u + rest) == SplitLines(u) + SplitLines(rest)
    decreases |u|
  {
    hide IsNewline, Extend;
    if u == "" {
      assert u + rest == rest;
    } else {
      var w := if IsNewline(u[0]) then BreakWidth(u) else 1;
      assert w < |u| ==> u[w..][|u| - w - 1] == u[|u| - 1];
      ClosedLines(u[w..], rest);
      if IsNewline(u[0]) {
        ClosedBreak(u, rest, u[w..]);
      } else {
        ClosedChar(u[0], u[1..], rest);
        assert u == [u[0]] + u[1..];
      }
    }
  }

  /** Text without a boundary in front extends the first line. */
  lemma {:induction false} PrefixLine(b: string, t: string)
    requires OneLine(b) && t != ""
    ensures |SplitLines(t)| > 0
    ensures SplitLines(b + t) == [b + SplitLines(t)[0]] + SplitLines(t)[1..]
  {
    hide IsNewline;
    SplitNonempty(t);
    var lines := SplitLines(t);
    if b == "" {
      assert b + t == t && b + lines[0] == lines[0];
    } else {
      PrefixLine(b[1..], t);
      assert (b + t)[0] == b[0] && (b + t)[1..] == b[1..] + t;
      assert [b[0]] + (b[1..] + lines[0]) == b + lines[0];
    }
  }

  lemma LastLine(s: string)
    requires OneLine(s)
    ensures SplitLines(s) == if s == "" then [] else [s]
    ensures SplitLines(s + "\r") == [s]
  {
    if s != "" {
      var b := s[..|s| - 1];
      assert s == b + [s[|s| - 1]];
      PrefixLine(b, [s[|s| - 1]]);
      assert SplitLines([s[|s| - 1]]) == [[s[|s| - 1]]];
    }
    PrefixLine(s, "\r");
    assert SplitLines("\r") == [""] && s + "" == s;
  }

  /** Where the last line of a text starts: right after its last line break. */
  function LastStart(s: string): (k: nat)
    ensures k <= |s| && forall i | k <= i < |s| :: !IsNewline(s[i])
    ensures k > 0 ==> IsNewline(s[k - 1])
  {
    if s == "" || IsNewline(s[|s| - 1]) then |s| else LastStart(s[..|s| - 1])
  }

  lemma OpenLine(a: string, b: string, rest: string)
    requires a == "" || IsNewline(a[|a| - 1])
    requires b != "" && OneLine(b)
    ensures SplitLines(a + b) == SplitLines(a) + [b]
    ensures SplitLines(a + b + rest) == SplitLines(a) + SplitLines(b + rest)
  {
    assert IsNewline('\n');
    hide IsNewline, SplitLines;
    assert a + b + rest == a + (b + rest) && (b + rest)[0] == b[0];
    ClosedLines(a, b);
    ClosedLines(a, b + rest);
    LastLine(b);
  }

  /** Otherwise all but the last line are, and the last one is still open. */
  lemma OpenLines(u: string, rest: string)
    requires u != "" && !IsNewline(u[|u| - 1])
    ensures var k := LastStart(u);
            && k < |u| && OneLine(u[k..])
            && SplitLines(u) == SplitLines(u[..k]) + [u[k..]]
            && SplitLines(u + rest) == SplitLines(u[..k]) + SplitLines(u[k..] + rest)
  {
    hide IsNewline, SplitLines;
    var k := LastStart(u);
    assert u == u[..k] + u[k..];
    OpenLine(u[..k], u[k..], rest);
  }

  /** Reading `before` gives out `lines` and leaves `after` to be read, whatever comes next. */
  ghost predicate Emits(before: string, lines: seq<string>, after: string)
  {
    forall rest: string :: SplitLines(before + rest) == lines + SplitLines(after + rest)
  }

  /** Text carried over to the next chunk belongs to the rest. */
  lemma EmitsCarried(u: string, lines: seq<string>, open: string, carried: string)
    requires forall rest: string :: SplitLines(u + (carried + rest)) == lines + SplitLines(open + (carried + rest))
    ensures Emits(u + carried, lines, open + carried)
  {
    hide SplitLines;
    forall rest: string
      ensures SplitLines(u + carried + rest) == lines + SplitLines(open + carried + rest)
    {
      assert u + carried + rest == u + (carried + rest) && open + carried + rest == open + (carried + rest);
    }
  }

  /** One chunk after another. */
  lemma EmitsThen(t: string, emitted: seq<string>, pending: string, text: string, lines: seq<string>, after: string)
    requires Emits(t, emitted, pending) && Emits(pending + text, lines, after)
    ensures Emits(t + text, emitted + lines, after)
  {
    hide SplitLines;
    forall rest: string
      ensures SplitLines(t + text + rest) == emitted + lines + SplitLines(after + rest)
    {
      assert t + text + rest == t + (text + rest) && pending + text + rest == pending + (text + rest);
      assert SplitLines(t + (text + rest)) == emitted + SplitLines(pending + (text + rest));
    }
  }

  /** The lines of a chunk, the first one completed by what was buffered. */
  function WithStart(start: string, lines: seq<string>): seq<string>
  {
    if lines == [] then [] else [start + lines[0]] + lines[1..]
  }

  /** A chunk that ends at a boundary leaves only the carried carriage return. */
  lemma ClosedChunk(start: string, text: string, carried: string)
    requires OneLine(start) && text != "" && IsNewline(text[|text| - 1])
    requires carried == "\r" || (carried == "" && text[|text| - 1] != '\r')
    ensures Emits(start + text + carried, WithStart(start, SplitLines(text)), "" + carried)
  {
    hide SplitLines, IsNewline;
    var u := start + text;
    PrefixLine(start, text);
    forall rest: string
      ensures SplitLines(u + (carried + rest)) == SplitLines(u) + SplitLines("" + (carried + rest))
    {
      ClosedLines(u, carried + rest);
      assert "" + (carried + rest) == carried + rest;
    }
    EmitsCarried(u, SplitLines(u), "", carried);
  }

  /** Any other chunk also leaves its last line. */
  lemma OpenChunk(start: string, text: string, carried: string)
    requires OneLine(start) && text != "" && !IsNewline(text[|text| - 1])
    ensures var given := WithStart(start, SplitLines(text));
            && given != [] && given[|given| - 1] != "" && OneLine(given[|given| - 1])
            && Emits(start + text + carried, given[..|given| - 1], given[|given| - 1] + carried)
  {
    hide SplitLines, IsNewline;
    var u := start + text;
    assert u[|u| - 1] == text[|text| - 1];
    PrefixLine(start, text);
    OpenLines(u, "");
    var k := LastStart(u);
    forall rest: string
      ensures SplitLines(u + (carried + rest)) == SplitLines(u[..k]) + SplitLines(u[k..] + (carried + rest))
    {
      OpenLines(u, carried + rest);
    }
    EmitsCarried(u, SplitLines(u[..k]), u[k..], carried);
    assert SplitLines(u)[..|SplitLines(u)| - 1] == SplitLines(u[..k]);
  }

  lemma SingleLine(text: string)
    requires text != "" && !IsNewline(text[|text| - 1]) && |SplitLines(text)| == 1
    ensures SplitLines(text)[0] == text && OneLine(text)
  {
    hide IsNewline;
    OpenLines(text, "");
    var k := LastStart(text);
    if k > 0 {
      SplitNonempty(text[..k]);
    }
    assert text[0..] == text;
  }

  /** What a chunk gives out and what it leaves in the buffer, given what was there. */
  ghost function Decoded(start: string, text: string): (seq<string>, string)
  {
    var given := WithStart(start, SplitLines(text));
    if text == "" || given == [] then ([], start)
    else if IsNewline(text[|text| - 1]) then (given, "")
    else (given[..|given| - 1], given[|given| - 1])
  }

  lemma DecodedEmits(start: string, text: string, carried: string)
    requires OneLine(start)
    requires carried == "\r" || (carried == "" && (text == "" || text[|text| - 1] != '\r'))
    ensures var (lines, left) := Decoded(start, text);
            OneLine(left) && Emits(start + text + carried, lines, left + carried)
  {
    hide SplitLines, IsNewline;
    if text == "" {
      assert start + text + carried == start + carried;
    } else {
      PrefixLine(start, text);
      if IsNewline(text[|text| - 1]) {
        ClosedChunk(start, text, carried);
      } else {
        OpenChunk(start, text, carried);
      }
    }
  }

  class LineDecoder {
    var buffer: seq<string>
    var trailingCr: bool

    /** The buffer holds non-empty pieces of one unfinished line. */
    ghost predicate Valid()
      reads this
    {
      OneLine(Concat(buffer)) && (buffer == [] <==> Concat(buffer) == "")
    }

    /** The text taken in but not yet given out. */
    ghost function Pending(): string
      reads this
    {
      Concat(buffer) + if trailingCr then "\r" else ""
    }

    constructor ()
      ensures Valid() && Pending() == ""
    {
      buffer, trailingCr := [], false;
    }

    /** Gives out every line that is complete whatever follows, and keeps the rest. */
    method Decode(chunk: string) returns (lines: seq<string>)
      requires Valid()
      modifies this
      ensures Valid()
      ensures Emits(old(Pending()) + chunk, lines, Pending())
    {
      hide SplitLines, IsNewline, Decoded, Emits;
      var text := chunk;
      if trailingCr {
        text := "\r" + text;
        trailingCr := false;
      }
      if text != "" && text[|text| - 1] == '\r' {
        trailingCr := true;
        text := text[..|text| - 1];
      }
      ghost var start := Concat(buffer);
      assert old(Pending()) + chunk == start + text + if trailingCr then "\r" else "";
      DecodedEmits(start, text, if trailingCr then "\r" else "");
      lines := Take(start, text);
    }

    /** The part of `decode` after the trailing carriage return is set aside. */
    method Take(ghost start: string, text: string) returns (lines: seq<string>)
      requires Valid() && start == Concat(buffer)
      modifies this`buffer
      ensures Valid()
      ensures lines == Decoded(start, text).0 && Concat(buffer) == Decoded(start, text).1
    {
      hide SplitLines, IsNewline;
      if text == "" {
        return [];
      }
      var trailingNewline := IsNewline(text[|text| - 1]);
      lines := SplitLines(text);
      PrefixLine(start, text);
      if !trailingNewline {
        OpenChunk(start, text, "");
      }
      if |lines| == 1 && !trailingNewline {
        SingleLine(text);
        ConcatSnoc(buffer, text);
        buffer := buffer + [lines[0]];
        return [];
      }
      assert "" + lines[0] == lines[0];
      if buffer != [] {
        lines := [Concat(buffer) + lines[0]] + lines[1..];
        buffer := [];
      }
      assert lines == WithStart(start, SplitLines(text));
      if !trailingNewline {
        buffer := [lines[|lines| - 1]];
        lines := lines[..|lines| - 1];
        assert Concat(buffer) == buffer[0];
      }
    }

    /** Gives out the last line. */
    method Flush() returns (lines: seq<string>)
      requires Valid()
      modifies this
      ensures Valid() && Pending() == ""
      ensures lines == SplitLines(old(Pending()))
    {
      hide SplitLines, IsNewline;
      LastLine(Concat(buffer));
      assert Concat(buffer) + "" == Concat(buffer);
      if buffer == [] && !trailingCr {
        return [];
      }
      lines := [Concat(buffer)];
      buffer := [];
      trailingCr := false;
    }
  }

  /** The lines a response iterates over do not depend on how its text was cut into chunks: they are the
      lines of the whole text, between its line breaks. */
  method IterLines(chunks: seq<string>) returns (lines: seq<string>)
    ensures lines == SplitLines(Concat(chunks))
    ensures exists pieces :: IsCut(Concat(chunks), pieces) && lines == LinesOf(pieces)
  {
    hide SplitLines, IsCut, LinesOf;
    var decoder := new LineDecoder();
    lines := [];
    for i := 0 to |chunks|
      invariant fresh(decoder) && decoder.Valid()
      invariant Emits(Concat(chunks[..i]), lines, decoder.Pending())
    {
      ghost var pending := decoder.Pending();
      var more := decoder.Decode(chunks[i]);
      EmitsThen(Concat(chunks[..i]), lines, pending, chunks[i], more, decoder.Pending());
      ConcatSnoc(chunks[..i], chunks[i]);
      assert chunks[..i + 1] == chunks[..i] + [chunks[i]];
      lines := lines + more;
    }
    assert chunks[..|chunks|] == chunks;
    ghost var pending := decoder.Pending();
    var last := decoder.Flush();
    assert SplitLines(Concat(chunks) + "") == lines + SplitLines(pending + "");
    assert Concat(chunks) + "" == Concat(chunks) && pending + "" == pending;
    lines := lines + last;
    ghost var pieces := CutExists(Concat(chunks));
    SplitLinesOf(Concat(chunks), pieces);
  }
}
