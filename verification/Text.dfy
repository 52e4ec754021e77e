/** Character classes and scanners shared by the URL modules. */
module Text {
  import opened Prelude

  predicate IsDigit(c: char) { '0' <= c <= '9' }

  predicate IsAlpha(c: char) { 'a' <= c <= 'z' || 'A' <= c <= 'Z' }

  predicate IsHex(c: char) { IsDigit(c) || 'a' <= c <= 'f' || 'A' <= c <= 'F' }

  predicate IsAscii(c: char) { c as int < 0x80 }

  /** ASCII and rejected by Python's `str.isprintable`. */
  predicate IsControl(c: char) { c as int < 0x20 || c as int == 0x7F }

  function LowerChar(c: char): char
  {
    if 'A' <= c <= 'Z' then (c as int + 32) as char else c
  }

  /** `str.lower` on ASCII text, the only text it is applied to here. */
  function Lower(s: string): (r: string)
    ensures |r| == |s|
    ensures forall i | 0 <= i < |s| :: r[i] == LowerChar(s[i])
  {
    seq(|s|, i requires 0 <= i < |s| => LowerChar(s[i]))
  }

  /** The same letter, or the two cases of one. */
  predicate SameLetter(a: char, b: char)
  {
    || a == b
    || (0x41 <= a as int <= 0x5A && b as int == a as int + 0x20)
    || (0x41 <= b as int <= 0x5A && a as int == b as int + 0x20)
  }

  /** Lowering forgets the case of letters and nothing else. */
  lemma LowerForgetsCase(a: string, b: string)
    ensures Lower(a) == Lower(b) <==> |a| == |b| && forall i | 0 <= i < |a| :: SameLetter(a[i], b[i])
  {
    if Lower(a) == Lower(b) {
      assert |a| == |Lower(a)| == |Lower(b)| == |b|;
      forall i | 0 <= i < |a|
        ensures SameLetter(a[i], b[i])
      {
        assert Lower(a)[i] == LowerChar(a[i]) && Lower(b)[i] == LowerChar(b[i]);
      }
    }
  }

  /** No character of `s` is a `stop` character. */
  predicate Avoids(s: string, stop: char -> bool)
  {
    forall i | 0 <= i < |s| :: !stop(s[i])
  }

  predicate StartsWith(s: string, prefix: string) { prefix <= s }

  /** Length of the longest prefix whose characters satisfy `p`: a greedy, deterministic `[p]*`. */
  function Span(s: string, p: char -> bool): (n: nat)
    ensures n <= |s| && forall i | 0 <= i < n :: p(s[i])
    ensures n < |s| ==> !p(s[n])
  {
    if s == "" || !p(s[0]) then 0 else 1 + Span(s[1..], p)
  }

  /** A greedy `[^stop]*`. */
  function SpanNot(s: string, stop: char -> bool): (n: nat)
    ensures n <= |s| && forall i | 0 <= i < n :: !stop(s[i])
    ensures n < |s| ==> stop(s[n])
  {
    if s == "" || stop(s[0]) then 0 else 1 + SpanNot(s[1..], stop)
  }

  /** The span of a text that ends at a stop character or at the end of the input. */
  lemma SpanNotOf(a: string, b: string, stop: char -> bool)
    requires Avoids(a, stop)
    requires b == "" || stop(b[0])
    ensures SpanNot(a + b, stop) == |a|
  {
    assert b != "" ==> stop((a + b)[|a|]);
  }

  /** A scan does not pass a stop character. */
  lemma SpanNotBound(a: string, b: string, stop: char -> bool)
    requires b == "" || stop(b[0])
    ensures SpanNot(a + b, stop) <= |a|
  {
    assert b != "" ==> stop((a + b)[|a|]);
  }

  /** Index of the last `c`, or None: where a greedy `.*` in front of `c` stops. */
  function LastIndex(s: string, c: char): (r: Option<nat>)
    ensures r.None? ==> forall i | 0 <= i < |s| :: s[i] != c
    ensures r.Some? ==> r.value < |s| && s[r.value] == c && forall i | r.value < i < |s| :: s[i] != c
  {
    if s == "" then None
    else if s[|s| - 1] == c then Some(|s| - 1)
    else LastIndex(s[..|s| - 1], c)
  }

  lemma {:induction false} LastIndexOf(a: string, c: char, b: string)
    requires forall i | 0 <= i < |b| :: b[i] != c
    ensures LastIndex(a + [c] + b, c) == Some(|a|)
    decreases |b|
  {
    var s := a + [c] + b;
    if b == "" {
      assert s == a + [c];
    } else {
      var front := b[..|b| - 1];
      assert s[..|s| - 1] == a + [c] + front && s[|s| - 1] == b[|b| - 1];
      LastIndexOf(a, c, front);
    }
  }

  // ----- `str.strip`, by the characters to strip -----

  function StripRight(s: string, p: char -> bool): string
  {
    if s == "" || !p(s[|s| - 1]) then s else StripRight(s[..|s| - 1], p)
  }

  function StripLeft(s: string, p: char -> bool): string
  {
    if s == "" || !p(s[0]) then s else StripLeft(s[1..], p)
  }

  function Strip(s: string, p: char -> bool): string { StripRight(StripLeft(s, p), p) }

  lemma {:induction false} StripRightShape(s: string, p: char -> bool)
    ensures |StripRight(s, p)| < |s| || StripRight(s, p) == s
    ensures StripRight(s, p) == s <==> s == "" || !p(s[|s| - 1])
  {
    if s != "" && p(s[|s| - 1]) {
      StripRightShape(s[..|s| - 1], p);
    }
  }

  lemma {:induction false} StripLeftShape(s: string, p: char -> bool)
    ensures |StripLeft(s, p)| < |s| || StripLeft(s, p) == s
    ensures StripLeft(s, p) == s <==> s == "" || !p(s[0])
  {
    if s != "" && p(s[0]) {
      StripLeftShape(s[1..], p);
    }
  }

  /** Both ends: nothing is stripped exactly when neither end is to be stripped. */
  lemma StripShape(s: string, p: char -> bool)
    ensures |Strip(s, p)| <= |s|
    ensures Strip(s, p) == s <==> s == "" || (!p(s[0]) && !p(s[|s| - 1]))
  {
    StripLeftShape(s, p);
    StripRightShape(StripLeft(s, p), p);
    StripRightShape(s, p);
  }

  lemma {:induction false} StripRightPrefix(a: string, x: string, p: char -> bool)
    requires a != "" && !p(a[|a| - 1])
    ensures StripRight(a + x, p) == a + StripRight(x, p)
    decreases |x|
  {
    if x == "" {
      assert a + x == a;
    } else if p(x[|x| - 1]) {
      assert (a + x)[..|a + x| - 1] == a + x[..|x| - 1];
      StripRightPrefix(a, x[..|x| - 1], p);
    }
  }

  lemma {:induction false} StripRightEmpty(s: string, p: char -> bool)
    ensures StripRight(s, p) == "" <==> forall i | 0 <= i < |s| :: p(s[i])
  {
    if s != "" && p(s[|s| - 1]) {
      StripRightEmpty(s[..|s| - 1], p);
    }
  }
}
