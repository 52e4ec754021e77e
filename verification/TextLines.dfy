/** `str.splitlines`, and what it computes. */
module TextLines {
  import opened Prelude

  /** The line boundaries of `str.splitlines`; a carriage return and line feed count as one. */
  predicate IsNewline(c: char)
  {
    '\n' <= c <= '\r' || '\U{1C}' <= c <= '\U{1E}' || c == '\U{85}' || '\U{2028}' <= c <= '\U{2029}'
  }

  predicate OneLine(s: string) { forall i | 0 <= i < |s| :: !IsNewline(s[i]) }

  /** Length of the line break at the front of `s`. */
  function BreakWidth(s: string): (w: nat)
    requires s != ""
    ensures 1 <= w <= |s|
  {
    if |s| > 1 && s[0] == '\r' && s[1] == '\n' then 2 else 1
  }

  /** One more character in front of the first line. */
  function Extend(c: char, lines: seq<string>): seq<string>
  {
    if lines == [] then [[c]] else [[c] + lines[0]] + lines[1..]
  }

  /** `text.splitlines()` */
  function SplitLines(s: string): seq<string>
  {
    if s == "" then []
    else if IsNewline(s[0]) then [""] + SplitLines(s[BreakWidth(s)..])
    else Extend(s[0], SplitLines(s[1..]))
  }

  lemma SplitBreak(s: string, tail: string)
    requires s != "" && IsNewline(s[0]) && s[BreakWidth(s)..] == tail
    ensures SplitLines(s) == [""] + SplitLines(tail)
  {
    hide IsNewline;
  }

  lemma SplitChar(c: char, tail: string)
    requires !IsNewline(c)
    ensures SplitLines([c] + tail) == Extend(c, SplitLines(tail))
  {
    hide IsNewline, Extend;
    assert ([c] + tail)[1..] == tail;
  }

  // ----- what it computes -----

  /** The line boundaries, one by one; a carriage return and line feed together are one more. */
  const NEWLINE_CHARS := "\n\r\U{0B}\U{0C}\U{1C}\U{1D}\U{1E}\U{85}\U{2028}\U{2029}"

  /** A line and the line break after it. */
  datatype Piece = Piece(line: string, ending: string)

  function Whole(p: Piece): string { p.line + p.ending }

  function TextOf(pieces: seq<Piece>): string
  {
    if pieces == [] then "" else Whole(pieces[0]) + TextOf(pieces[1..])
  }

  function LinesOf(pieces: seq<Piece>): (r: seq<string>)
    ensures |r| == |pieces|
  {
    seq(|pieces|, i requires 0 <= i < |pieces| => pieces[i].line)
  }

  predicate IsEnding(s: string) { s == "\r\n" || (|s| == 1 && s[0] in NEWLINE_CHARS) }

  /** The line holds no boundary, and one break ends it, which does not take half of a carriage return and line
      feed. Only at the end of the text may a line be without a break, and then it is not empty. */
  predicate Fits(p: Piece, after: string)
  {
    && (forall i | 0 <= i < |p.line| :: p.line[i] !in NEWLINE_CHARS)
    && if p.ending == "" then p.line != "" && after == ""
       else IsEnding(p.ending) && !(p.ending == "\r" && after != "" && after[0] == '\n')
  }

  predicate IsCut(s: string, pieces: seq<Piece>)
  {
    s == TextOf(pieces) && forall i | 0 <= i < |pieces| :: Fits(pieces[i], TextOf(pieces[i + 1..]))
  }

  lemma NewlineChars(c: char)
    ensures IsNewline(c) <==> c in NEWLINE_CHARS
  {
    var s := NEWLINE_CHARS;
    assert s[0] == '\n' && s[1] == '\r' && s[2] == '\U{0B}' && s[3] == '\U{0C}' && s[4] == '\U{1C}';
    assert s[5] == '\U{1D}' && s[6] == '\U{1E}' && s[7] == '\U{85}' && s[8] == '\U{2028}' && s[9] == '\U{2029}';
  }

  lemma CutTail(s: string, pieces: seq<Piece>)
    requires IsCut(s, pieces) && pieces != []
    ensures IsCut(TextOf(pieces[1..]), pieces[1..]) && Fits(pieces[0], TextOf(pieces[1..]))
  {
    forall i | 0 <= i < |pieces[1..]|
      ensures Fits(pieces[1..][i], TextOf(pieces[1..][i + 1..]))
    {
      assert Fits(pieces[i + 1], TextOf(pieces[i + 2..])) && pieces[1..][i + 1..] == pieces[i + 2..];
    }
  }

  lemma CutCons(p: Piece, s: string, pieces: seq<Piece>)
    requires IsCut(s, pieces) && Fits(p, s)
    ensures IsCut(Whole(p) + s, [p] + pieces)
  {
    var all := [p] + pieces;
    assert all[1..] == pieces;
    forall i | 0 <= i < |all|
      ensures Fits(all[i], TextOf(all[i + 1..]))
    {
      if i > 0 {
        assert Fits(pieces[i - 1], TextOf(pieces[i..])) && all[i + 1..] == pieces[i..];
      }
    }
  }

  /** The break at the front of a text, told from the piece it ends. */
  lemma WidthOf(p: Piece, after: string)
    requires Fits(p, after) && p.line == ""
    ensures var s := Whole(p) + after;
            s != "" && IsNewline(s[0]) && BreakWidth(s) == |p.ending| && s[BreakWidth(s)..] == after
  {
    var s := Whole(p) + after;
    assert s == p.ending + after;
    NewlineChars(s[0]);
    assert |p.ending| == 1 && after != "" ==> s[1] == after[0];
  }

  /** A piece without its first character. */
  function Shorter(p: Piece): Piece
    requires p.line != ""
  {
    p.(line := p.line[1..])
  }

  lemma ShorterFits(p: Piece, after: string)
    requires Fits(p, after) && p.line != ""
    ensures Whole(p) + after == [p.line[0]] + (Whole(Shorter(p)) + after) && !IsNewline(p.line[0])
    ensures Whole(Shorter(p)) == "" || Fits(Shorter(p), after)
    ensures Whole(Shorter(p)) == "" ==> after == ""
  {
    NewlineChars(p.line[0]);
    assert p.line == [p.line[0]] + p.line[1..];
  }

  lemma LinesOfCons(p: Piece, pieces: seq<Piece>)
    ensures LinesOf([p] + pieces) == [p.line] + LinesOf(pieces)
  {
  }

  /** However a text is cut in this way, its lines are those of `splitlines`. */
  lemma {:induction false} SplitLinesOf(s: string, pieces: seq<Piece>)
    requires IsCut(s, pieces)
    ensures SplitLines(s) == LinesOf(pieces)
    decreases |s|
  {
    hide IsNewline, IsCut, Fits, BreakWidth, SplitLines, LinesOf, TextOf, Extend;
    CutNonempty(s, pieces);
    if pieces == [] {
      SplitNothing();
    } else {
      var p, rest := pieces[0], pieces[1..];
      CutTail(s, pieces);
      CutText(s, pieces);
      assert pieces == [p] + rest;
      LinesOfCons(p, rest);
      TextOfFirst(pieces);
      if p.line == "" {
        WidthOf(p, TextOf(rest));
        SplitBreak(s, TextOf(rest));
        SplitLinesOf(TextOf(rest), rest);
      } else {
        LongerLine(s, p, rest);
      }
    }
  }

  lemma {:induction false} LongerLine(s: string, p: Piece, rest: seq<Piece>)
    requires IsCut(TextOf(rest), rest) && Fits(p, TextOf(rest)) && p.line != "" && s == Whole(p) + TextOf(rest)
    ensures SplitLines(s) == [p.line] + LinesOf(rest)
    decreases |s|, 0
  {
    hide IsNewline, IsCut, Fits, BreakWidth, SplitLines, LinesOf, TextOf;
    var q, after := Shorter(p), TextOf(rest);
    var t := Whole(q) + after;
    ShorterFits(p, after);
    SplitChar(p.line[0], t);
    assert [p.line[0]] + p.line[1..] == p.line;
    if Whole(q) == "" {
      CutNonempty(after, rest);
      SplitNothing();
      assert t == "" && p.line == [p.line[0]];
      assert SplitLines(s) == Extend(p.line[0], []) == [p.line];
    } else {
      CutCons(q, after, rest);
      SplitLinesOf(t, [q] + rest);
      LinesOfCons(q, rest);
      var lines := [q.line] + LinesOf(rest);
      assert lines[1..] == LinesOf(rest) && [p.line[0]] + lines[0] == p.line;
    }
  }

  lemma SplitNothing()
    ensures SplitLines("") == [] && LinesOf([]) == []
  {
  }

  lemma CutText(s: string, pieces: seq<Piece>)
    requires IsCut(s, pieces)
    ensures s == TextOf(pieces)
  {
  }

  lemma CutNonempty(s: string, pieces: seq<Piece>)
    requires IsCut(s, pieces)
    ensures pieces != [] <==> s != ""
  {
    if pieces != [] {
      assert Fits(pieces[0], TextOf(pieces[1..]));
      assert |TextOf(pieces)| >= |Whole(pieces[0])| > 0;
    }
  }

  lemma BreakFits(s: string)
    requires s != "" && s[0] in NEWLINE_CHARS
    ensures Fits(Piece("", s[..BreakWidth(s)]), s[BreakWidth(s)..])
  {
  }

  lemma LongerFits(c: char, p: Piece, after: string)
    requires c !in NEWLINE_CHARS && Fits(p, after)
    ensures Fits(p.(line := [c] + p.line), after)
    ensures Whole(p.(line := [c] + p.line)) + after == [c] + (Whole(p) + after)
  {
  }

  /** Every text can be cut in this way. */
  lemma {:induction false} CutExists(s: string) returns (pieces: seq<Piece>)
    ensures IsCut(s, pieces)
    decreases |s|
  {
    if s == "" {
      pieces := [];
    } else if s[0] in NEWLINE_CHARS {
      hide IsCut, Fits;
      var after := s[BreakWidth(s)..];
      var rest := CutExists(after);
      var p := Piece("", s[..BreakWidth(s)]);
      BreakFits(s);
      CutCons(p, after, rest);
      assert Whole(p) + after == s;
      pieces := [p] + rest;
    } else {
      var rest := CutExists(s[1..]);
      hide IsCut, TextOf;
      CutNonempty(s[1..], rest);
      assert s == [s[0]] + s[1..];
      if rest == [] {
        pieces := LoneChar(s);
      } else {
        hide Fits, Whole;
        var after := TextOf(rest[1..]);
        CutTail(s[1..], rest);
        CutText(s[1..], rest);
        TextOfFirst(rest);
        LongerFits(s[0], rest[0], after);
        CutCons(rest[0].(line := [s[0]] + rest[0].line), after, rest[1..]);
        pieces := [rest[0].(line := [s[0]] + rest[0].line)] + rest[1..];
      }
    }
  }

  lemma TextOfFirst(pieces: seq<Piece>)
    requires pieces != []
    ensures TextOf(pieces) == Whole(pieces[0]) + TextOf(pieces[1..])
  {
  }

  lemma LoneChar(s: string) returns (pieces: seq<Piece>)
    requires |s| == 1 && s[0] !in NEWLINE_CHARS
    ensures IsCut(s, pieces)
  {
    var p := Piece(s, "");
    CutCons(p, "", []);
    assert Whole(p) + "" == s;
    pieces := [p] + [];
  }

  /** And in one way only. */
  lemma {:induction false} CutUnique(s: string, a: seq<Piece>, b: seq<Piece>)
    requires IsCut(s, a) && IsCut(s, b)
    ensures a == b
    decreases |s|
  {
    if s == "" {
      CutNonempty(s, a);
      CutNonempty(s, b);
    } else {
      hide IsNewline, IsCut, Fits, BreakWidth;
      CutNonempty(s, a);
      CutNonempty(s, b);
      CutText(s, a);
      CutText(s, b);
      CutTail(s, a);
      CutTail(s, b);
      FirstPieces(s, a[0], TextOf(a[1..]), b[0], TextOf(b[1..]));
      CutUnique(TextOf(a[1..]), a[1..], b[1..]);
      assert a == [a[0]] + a[1..] && b == [b[0]] + b[1..];
    }
  }

  lemma {:induction false} FirstPieces(s: string, p: Piece, after: string, q: Piece, later: string)
    requires s == Whole(p) + after == Whole(q) + later
    requires Fits(p, after) && Fits(q, later)
    ensures p == q && after == later && |after| < |s|
    decreases |s|
  {
    if p.line == "" || q.line == "" {
      PieceStart(p, after);
      PieceStart(q, later);
      WidthOf(p, after);
      WidthOf(q, later);
    } else {
      ShorterFits(p, after);
      ShorterFits(q, later);
      var t := s[1..];
      assert t == Whole(Shorter(p)) + after == Whole(Shorter(q)) + later;
      assert p.line == [s[0]] + p.line[1..] && q.line == [s[0]] + q.line[1..];
      if Whole(Shorter(p)) != "" && Whole(Shorter(q)) != "" {
        FirstPieces(t, Shorter(p), after, Shorter(q), later);
      }
    }
  }

  lemma PieceStart(p: Piece, after: string)
    requires Fits(p, after)
    ensures var s := Whole(p) + after; s != "" && (p.line == "" <==> IsNewline(s[0]))
  {
    var s := Whole(p) + after;
    NewlineChars(s[0]);
    assert p.line != "" ==> s[0] == p.line[0];
    assert p.line == "" ==> s[0] == p.ending[0];
  }
}
