/** Percent-encoding: `PERCENT`, `percent_encoded` and `quote` of httpxp/_urlparse.py. */
module Quote {
  import opened Prelude
  import opened Text

  /** Section 2.3 of RFC 3986. */
  predicate IsUnreserved(c: char) { IsAlpha(c) || IsDigit(c) || c == '-' || c == '.' || c == '_' || c == '~' }

  /** NON_ESCAPED_CHARS; a safe set is given by its membership test. */
  predicate Kept(c: char, safe: char -> bool) { IsUnreserved(c) || safe(c) }

  predicate AllKept(s: string, safe: char -> bool)
  {
    forall i | 0 <= i < |s| :: Kept(s[i], safe)
  }

  /** UTF-8 of one Unicode scalar value. */
  function Utf8(c: char): (r: seq<byte>)
    ensures 1 <= |r| <= 4
  {
    var n := c as int;
    if n < 0x80 then [n]
    else if n < 0x800 then [0xC0 + n / 64, 0x80 + n % 64]
    else if n < 0x1_0000 then [0xE0 + n / 4096, 0x80 + n / 64 % 64, 0x80 + n % 64]
    else [0xF0 + n / 262144, 0x80 + n / 4096 % 64, 0x80 + n / 64 % 64, 0x80 + n % 64]
  }

  /** The code point at the front of some bytes, and the bytes after it: section 3 of RFC 3629. */
  function ReadUtf8(bytes: seq<byte>): Option<(int, seq<byte>)>
  {
    if bytes == [] || 0x80 <= bytes[0] < 0xC0 then None
    else if bytes[0] < 0x80 then Some((bytes[0], bytes[1..]))
    else if bytes[0] < 0xE0 then ReadTail(bytes[0] - 0xC0, bytes[1..], 1)
    else if bytes[0] < 0xF0 then ReadTail(bytes[0] - 0xE0, bytes[1..], 2)
    else ReadTail(bytes[0] - 0xF0, bytes[1..], 3)
  }

  /** `n` continuation bytes of six bits each. */
  function ReadTail(high: int, bytes: seq<byte>, n: nat): Option<(int, seq<byte>)>
    decreases n
  {
    if n == 0 then Some((high, bytes))
    else if bytes == [] || !(0x80 <= bytes[0] < 0xC0) then None
    else ReadTail(high * 64 + (bytes[0] - 0x80), bytes[1..], n - 1)
  }

  lemma {:induction false} ReadTailStep(high: int, low: int, rest: seq<byte>, n: nat)
    requires 0 <= low < 64
    ensures ReadTail(high, [0x80 + low] + rest, n + 1) == ReadTail(high * 64 + low, rest, n)
  {
    assert ([0x80 + low] + rest)[1..] == rest;
  }

  lemma ReadThree(high: int, x: int, y: int, z: int, rest: seq<byte>)
    requires 0 <= x < 64 && 0 <= y < 64 && 0 <= z < 64
    ensures ReadTail(high, [0x80 + z] + rest, 1) == Some((high * 64 + z, rest))
    ensures ReadTail(high, [0x80 + y, 0x80 + z] + rest, 2) == Some(((high * 64 + y) * 64 + z, rest))
    ensures ReadTail(high, [0x80 + x, 0x80 + y, 0x80 + z] + rest, 3)
            == Some((((high * 64 + x) * 64 + y) * 64 + z, rest))
  {
    hide ReadTail;
    var low := [0x80 + z] + rest;
    var middle := [0x80 + y] + low;
    assert [0x80 + y, 0x80 + z] + rest == middle;
    assert [0x80 + x, 0x80 + y, 0x80 + z] + rest == [0x80 + x] + middle;
    ReadTailEnd((high * 64 + x) * 64 + y, z, rest);
    ReadTailEnd(high * 64 + y, z, rest);
    ReadTailEnd(high, z, rest);
    ReadTailStep(high * 64 + x, y, low, 1);
    ReadTailStep(high, y, low, 1);
    ReadTailStep(high, x, middle, 2);
  }

  lemma ReadTailEnd(high: int, low: int, rest: seq<byte>)
    requires 0 <= low < 64
    ensures ReadTail(high, [0x80 + low] + rest, 1) == Some((high * 64 + low, rest))
  {
    ReadTailStep(high, low, rest, 0);
  }

  /** The bytes of a character are read back as that character, whatever follows them. */
  lemma Utf8ReadsBack(c: char, rest: seq<byte>)
    ensures ReadUtf8(Utf8(c) + rest) == Some((c as int, rest))
  {
    hide ReadTail;
    var n := c as int;
    var bytes := Utf8(c) + rest;
    assert n / 4096 == n / 64 / 64 && n / 262144 == n / 4096 / 64;
    assert bytes[1..] == Utf8(c)[1..] + rest;
    var lead: int := bytes[0];
    ReadThree(lead - (if n < 0x800 then 0xC0 else if n < 0x1_0000 then 0xE0 else 0xF0),
              n / 4096 % 64, n / 64 % 64, n % 64, rest);
  }

  function HexDigit(n: int): (c: char)
    requires 0 <= n < 16
    ensures IsHex(c) && IsUnreserved(c)
  {
    if n < 10 then ('0' as int + n) as char else ('A' as int + n - 10) as char
  }

  function HexValue(c: char): (n: int)
    requires IsHex(c)
    ensures 0 <= n < 16
  {
    if IsDigit(c) then c as int - '0' as int
    else if 'a' <= c then c as int - 'a' as int + 10
    else c as int - 'A' as int + 10
  }

  function HexBytes(bytes: seq<byte>): string
  {
    if bytes == [] then ""
    else ['%', HexDigit(bytes[0] / 16), HexDigit(bytes[0] % 16)] + HexBytes(bytes[1..])
  }

  /** `PERCENT` on one character. */
  function Percent(c: char): string { HexBytes(Utf8(c)) }

  /** What one character outside an escape becomes. */
  function Escape(c: char, safe: char -> bool): string
  {
    if Kept(c, safe) then [c] else Percent(c)
  }

  /** `percent_encoded` without its fast path. */
  function Escaped(s: string, safe: char -> bool): string
  {
    if s == "" then "" else Escape(s[0], safe) + Escaped(s[1..], safe)
  }

  /** `%[A-Fa-f0-9]{2}` matches `s` at `i`. */
  predicate EscapeAt(s: string, i: nat)
  {
    i + 2 < |s| && s[i] == '%' && IsHex(s[i + 1]) && IsHex(s[i + 2])
  }

  /** `quote`, read from the left: an existing escape is kept, any other character is escaped. */
  function Quoted(s: string, safe: char -> bool): string
  {
    if s == "" then ""
    else if EscapeAt(s, 0) then s[..3] + Quoted(s[3..], safe)
    else Escape(s[0], safe) + Quoted(s[1..], safe)
  }

  /** The bytes a percent-encoded text stands for: section 2.1 of RFC 3986. */
  function Decoded(s: string): seq<byte>
  {
    if s == "" then []
    else if EscapeAt(s, 0) then [HexValue(s[1]) * 16 + HexValue(s[2])] + Decoded(s[3..])
    else Utf8(s[0]) + Decoded(s[1..])
  }

  // ----- the algorithms of the source -----

  lemma EscapedSafe(s: string, safe: char -> bool)
    requires AllKept(s, safe)
    ensures Escaped(s, safe) == s
  {
  }

  lemma {:induction false} EscapedSplit(a: string, b: string, safe: char -> bool)
    ensures Escaped(a + b, safe) == Escaped(a, safe) + Escaped(b, safe)
  {
    if a == "" {
      assert a + b == b;
    } else {
      assert (a + b)[1..] == a[1..] + b;
      EscapedSplit(a[1..], b, safe);
    }
  }

  lemma EscapedSnoc(s: string, i: nat, safe: char -> bool)
    requires i < |s|
    ensures Escaped(s[..i + 1], safe) == Escaped(s[..i], safe) + Escape(s[i], safe)
  {
    assert s[..i + 1] == s[..i] + [s[i]];
    EscapedSplit(s[..i], [s[i]], safe);
    assert Escaped([s[i]], safe) == Escape(s[i], safe) + Escaped([], safe);
  }

  /** The fast path on text that needs no escaping agrees with the character loop. */
  method PercentEncoded(s: string, safe: char -> bool) returns (r: string)
    ensures r == Escaped(s, safe)
  {
    StripRightEmpty(s, c => Kept(c, safe));
    if StripRight(s, c => Kept(c, safe)) == "" {
      EscapedSafe(s, safe);
      return s;
    }
    var parts: seq<string> := [];
    for i := 0 to |s|
      invariant Concat(parts) == Escaped(s[..i], safe)
    {
      var part := if Kept(s[i], safe) then [s[i]] else Percent(s[i]);
      ConcatSnoc(parts, part);
      EscapedSnoc(s, i, safe);
      parts := parts + [part];
    }
    assert s[..|s|] == s;
    r := Concat(parts);
  }

  /** One step of `re.finditer`: the leftmost escape at or after `from`, or the end of the text. */
  method NextMatch(s: string, from: nat) returns (start: nat)
    requires from <= |s|
    ensures from <= start <= |s|
    ensures forall i | from <= i < start :: !EscapeAt(s, i)
    ensures start == |s| || EscapeAt(s, start)
  {
    start := from;
    while start < |s| && !EscapeAt(s, start)
      invariant from <= start <= |s|
      invariant forall i | from <= i < start :: !EscapeAt(s, i)
    {
      start := start + 1;
    }
  }

  /** Text without escapes is quoted character by character. */
  lemma {:induction false} QuotedGap(s: string, from: nat, to: nat, safe: char -> bool)
    requires from <= to <= |s|
    requires forall i | from <= i < to :: !EscapeAt(s, i)
    ensures Quoted(s[from..], safe) == Escaped(s[from..to], safe) + Quoted(s[to..], safe)
    decreases |s| - from
  {
    if from < to {
      assert !EscapeAt(s, from);
      assert s[from..][1..] == s[from + 1..] && s[from..to][1..] == s[from + 1..to];
      QuotedGap(s, from + 1, to, safe);
    }
  }

  lemma QuotedEscape(s: string, i: nat, safe: char -> bool)
    requires EscapeAt(s, i)
    ensures Quoted(s[i..], safe) == s[i..i + 3] + Quoted(s[i + 3..], safe)
  {
    assert EscapeAt(s[i..], 0) && s[i..][..3] == s[i..i + 3] && s[i..][3..] == s[i + 3..];
  }

  lemma AppendPart(parts: seq<string>, part: string, rest: string, whole: string)
    requires Concat(parts) + (part + rest) == whole
    ensures Concat(parts + [part]) + rest == whole
  {
    ConcatSnoc(parts, part);
    assert Concat(parts) + (part + rest) == (Concat(parts) + part) + rest;
  }

  /** What the match loop has emitted so far, completed by quoting the rest. */
  ghost predicate Emitted(parts: seq<string>, s: string, position: nat, safe: char -> bool)
    requires position <= |s|
  {
    Concat(parts) + Quoted(s[position..], safe) == Quoted(s, safe)
  }

  /** Emitting the text up to `to`, given what it must read. */
  lemma Emit(parts: seq<string>, part: string, s: string, position: nat, to: nat, safe: char -> bool)
    requires position <= to <= |s|
    requires Emitted(parts, s, position, safe)
    requires Quoted(s[position..], safe) == part + Quoted(s[to..], safe)
    ensures Emitted(parts + [part], s, to, safe)
  {
    AppendPart(parts, part, Quoted(s[to..], safe), Quoted(s, safe));
  }

  lemma EmittedNothing(s: string, safe: char -> bool)
    ensures Emitted([], s, 0, safe)
  {
    assert s[0..] == s;
  }

  lemma EmittedAll(parts: seq<string>, s: string, safe: char -> bool)
    requires Emitted(parts, s, |s|, safe)
    ensures Concat(parts) == Quoted(s, safe)
  {
    assert s[|s|..] == "" && Quoted("", safe) == "";
  }

  /** Text without an escape, as the loop emits it: nothing at all when it is empty. */
  method EmitGap(parts: seq<string>, s: string, position: nat, to: nat, safe: char -> bool)
    returns (r: seq<string>)
    requires position <= to <= |s| && Emitted(parts, s, position, safe)
    requires forall i | position <= i < to :: !EscapeAt(s, i)
    ensures Emitted(r, s, to, safe)
  {
    if to == position {
      return parts;
    }
    var text := PercentEncoded(s[position..to], safe);
    QuotedGap(s, position, to, safe);
    Emit(parts, text, s, position, to, safe);
    r := parts + [text];
  }

  /** `quote`: the match loop computes `Quoted`. */
  method QuoteText(s: string, safe: char -> bool) returns (r: string)
    ensures r == Quoted(s, safe)
  {
    hide Quoted, Escaped, Concat, Emitted;
    var parts: seq<string> := [];
    var position := 0;
    var start := NextMatch(s, 0);
    EmittedNothing(s, safe);
    while start < |s|
      invariant position <= start <= |s|
      invariant forall i | position <= i < start :: !EscapeAt(s, i)
      invariant start == |s| || EscapeAt(s, start)
      invariant Emitted(parts, s, position, safe)
    {
      parts := EmitGap(parts, s, position, start, safe);
      QuotedEscape(s, start, safe);
      Emit(parts, s[start..start + 3], s, start, start + 3, safe);
      parts := parts + [s[start..start + 3]];
      position := start + 3;
      start := NextMatch(s, position);
    }
    parts := EmitGap(parts, s, position, |s|, safe);
    EmittedAll(parts, s, safe);
    r := Concat(parts);
  }

  // ----- what quoting preserves -----

  lemma {:induction false} HexBytesDecode(bytes: seq<byte>, rest: string)
    ensures Decoded(HexBytes(bytes) + rest) == bytes + Decoded(rest)
  {
    hide Utf8;
    if bytes == [] {
      assert HexBytes(bytes) + rest == rest;
    } else {
      var head := ['%', HexDigit(bytes[0] / 16), HexDigit(bytes[0] % 16)];
      assert HexBytes(bytes) + rest == head + (HexBytes(bytes[1..]) + rest);
      HexBytesDecode(bytes[1..], rest);
      assert EscapeAt(head + (HexBytes(bytes[1..]) + rest), 0);
      assert (head + (HexBytes(bytes[1..]) + rest))[3..] == HexBytes(bytes[1..]) + rest;
    }
  }

  /** Quoting never makes a leading hex digit out of anything else. */
  lemma QuotedHead(s: string, safe: char -> bool)
    ensures var q := Quoted(s, safe);
            q != "" && IsHex(q[0]) ==> s != "" && s[0] == q[0] && q[1..] == Quoted(s[1..], safe)
  {
  }

  lemma QuotedEscapeAt(s: string, safe: char -> bool)
    requires s != "" && s[0] == '%' && safe('%') && !EscapeAt(s, 0)
    ensures !EscapeAt(Quoted(s, safe), 0)
  {
    var q := Quoted(s, safe);
    assert q[1..] == Quoted(s[1..], safe);
    QuotedHead(s[1..], safe);
    if |s| > 1 {
      QuotedHead(s[2..], safe);
      assert s[1..][1..] == s[2..];
    }
  }

  /** Quoting does not change the bytes a text stands for. */
  lemma {:induction false} QuotePreservesMeaning(s: string, safe: char -> bool)
    ensures Decoded(Quoted(s, safe)) == Decoded(s)
  {
    if s == "" {
    } else if EscapeAt(s, 0) {
      QuotePreservesMeaning(s[3..], safe);
      assert Quoted(s, safe)[3..] == Quoted(s[3..], safe);
      assert EscapeAt(Quoted(s, safe), 0);
    } else {
      QuotePreservesMeaning(s[1..], safe);
      if !Kept(s[0], safe) {
        HexBytesDecode(Utf8(s[0]), Quoted(s[1..], safe));
      } else {
        assert Quoted(s, safe)[1..] == Quoted(s[1..], safe);
        if s[0] == '%' {
          QuotedEscapeAt(s, safe);
        }
      }
    }
  }

  lemma QuotedTriple(a: char, b: char, tail: string, safe: char -> bool)
    requires IsHex(a) && IsHex(b)
    ensures Quoted(['%', a, b] + tail, safe) == ['%', a, b] + Quoted(tail, safe)
  {
    var s := ['%', a, b] + tail;
    assert EscapeAt(s, 0) && s[3..] == tail && s[..3] == ['%', a, b];
  }

  lemma {:induction false} QuotedHexBytes(bytes: seq<byte>, rest: string, safe: char -> bool)
    ensures Quoted(HexBytes(bytes) + rest, safe) == HexBytes(bytes) + Quoted(rest, safe)
  {
    hide HexDigit, Escape, Utf8, Quoted;
    if bytes == [] {
      assert HexBytes(bytes) + rest == rest;
    } else {
      var a, b := HexDigit(bytes[0] / 16), HexDigit(bytes[0] % 16);
      var tail := HexBytes(bytes[1..]) + rest;
      assert HexBytes(bytes) + rest == ['%', a, b] + tail;
      QuotedHexBytes(bytes[1..], rest, safe);
      QuotedTriple(a, b, tail, safe);
    }
  }

  /** Quoting a second time changes nothing. */
  lemma {:induction false} QuoteIdempotent(s: string, safe: char -> bool)
    ensures Quoted(Quoted(s, safe), safe) == Quoted(s, safe)
  {
    if s == "" {
    } else if EscapeAt(s, 0) {
      QuoteIdempotent(s[3..], safe);
      assert Quoted(s, safe)[3..] == Quoted(s[3..], safe);
      assert EscapeAt(Quoted(s, safe), 0);
    } else {
      QuoteIdempotent(s[1..], safe);
      if !Kept(s[0], safe) {
        QuotedHexBytes(Utf8(s[0]), Quoted(s[1..], safe), safe);
      } else {
        assert Quoted(s, safe)[1..] == Quoted(s[1..], safe);
        if s[0] == '%' {
          QuotedEscapeAt(s, safe);
        }
      }
    }
  }

  /** With `%` safe the match loop is plain `percent_encoded`; every URL component uses such a set. */
  lemma {:induction false} QuotedIsCharwise(s: string, safe: char -> bool)
    requires safe('%')
    ensures Quoted(s, safe) == Escaped(s, safe)
  {
    if s == "" {
    } else if EscapeAt(s, 0) {
      QuotedIsCharwise(s[3..], safe);
      assert s == s[..3] + s[3..];
      EscapedSplit(s[..3], s[3..], safe);
      EscapedSafe(s[..3], safe);
    } else {
      QuotedIsCharwise(s[1..], safe);
    }
  }

  lemma EscapeGrows(s: string, safe: char -> bool)
    requires |s| == 3 && !safe('%') && EscapeAt(s, 0)
    ensures |Escaped(s, safe)| == 5
  {
    assert s == "%" + s[1..];
    EscapedSplit("%", s[1..], safe);
    EscapedSafe(s[1..], safe);
    assert Escaped("%", safe) == Percent('%') + Escaped("", safe);
    assert HexBytes([0x25]) == "%25" + HexBytes([]);
  }

  lemma {:induction false} EscapeShortens(s: string, safe: char -> bool)
    requires !safe('%')
    ensures |Quoted(s, safe)| <= |Escaped(s, safe)|
    ensures (exists i: nat :: EscapeAt(s, i)) ==> |Quoted(s, safe)| < |Escaped(s, safe)|
  {
    if s == "" {
    } else if EscapeAt(s, 0) {
      EscapeShortens(s[3..], safe);
      assert s == s[..3] + s[3..];
      EscapedSplit(s[..3], s[3..], safe);
      EscapeGrows(s[..3], safe);
    } else {
      EscapeShortens(s[1..], safe);
      if i: nat :| EscapeAt(s, i) {
        assert EscapeAt(s[1..], i - 1);
      }
    }
  }

  /** Exactly when the match loop is plain `percent_encoded`. */
  lemma QuotedIsCharwiseIff(s: string, safe: char -> bool)
    ensures Quoted(s, safe) == Escaped(s, safe) <==>
            safe('%') || forall i: nat :: !EscapeAt(s, i)
  {
    if safe('%') {
      QuotedIsCharwise(s, safe);
    } else {
      EscapeShortens(s, safe);
      if forall i: nat :: !EscapeAt(s, i) {
        QuotedGap(s, 0, |s|, safe);
        assert s[0..] == s && s[0..|s|] == s && s[|s|..] == "";
      }
    }
  }

  lemma {:induction false} HexBytesAlphabet(bytes: seq<byte>)
    ensures forall i | 0 <= i < |HexBytes(bytes)| :: IsUnreserved(HexBytes(bytes)[i]) || HexBytes(bytes)[i] == '%'
  {
    if bytes != [] {
      HexBytesAlphabet(bytes[1..]);
    }
  }

  /** Escaping that leaves no `%` behind left the text alone. */
  lemma {:induction false} EscapedClean(s: string, safe: char -> bool)
    requires '%' !in Escaped(s, safe)
    ensures Escaped(s, safe) == s
  {
    if s != "" {
      EscapedClean(s[1..], safe);
    }
  }

  /** Quoted text is made of unreserved and safe characters. */
  lemma {:induction false} QuotedAlphabet(s: string, safe: char -> bool)
    requires safe('%')
    ensures AllKept(Quoted(s, safe), safe)
  {
    if s == "" {
    } else if EscapeAt(s, 0) {
      QuotedAlphabet(s[3..], safe);
    } else {
      QuotedAlphabet(s[1..], safe);
      HexBytesAlphabet(Utf8(s[0]));
    }
  }

  /** Text over the safe alphabet is already quoted. */
  lemma QuotedFixed(s: string, safe: char -> bool)
    requires safe('%') && AllKept(s, safe)
    ensures Quoted(s, safe) == s
  {
    QuotedIsCharwise(s, safe);
    EscapedSafe(s, safe);
  }

  lemma QuotedNonempty(s: string, safe: char -> bool)
    ensures Quoted(s, safe) == "" <==> s == ""
  {
  }
}
