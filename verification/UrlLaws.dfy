/** What the parts of the URL parser compute, told without them: the alphabets of the components, the authority, the
    port and the keywords. */
module UrlLaws {
  import opened Prelude
  import opened Text
  import opened Quote
  import opened UrlPath
  import opened UrlParts
  import opened UrlPort
  import opened UrlParse
  import opened UrlRoundTrip
  import opened UrlCopy

  // ----- characters that stand in a component -----

  /** ALPHA and DIGIT, by their codes: appendix B.1 of RFC 5234. */
  predicate AlphaNum(c: char)
  {
    0x41 <= c as int <= 0x5A || 0x61 <= c as int <= 0x7A || 0x30 <= c as int <= 0x39
  }

  const QUERY_MARKS := {'!', '$', '%', '&', '\'', '(', ')', '*', '+', ',', '-', '.', '/', ':', ';', '=', '?', '@',
                        '[', '\\', ']', '^', '_', '`', '{', '|', '}', '~'}
  const FRAGMENT_MARKS := {'!', '#', '$', '%', '&', '\'', '(', ')', '*', '+', ',', '-', '.', '/', ':', ';', '=', '?',
                           '@', '[', '\\', ']', '^', '_', '{', '|', '}', '~'}
  const PATH_MARKS := {'!', '$', '%', '&', '\'', '(', ')', '*', '+', ',', '-', '.', '/', ':', ';', '=', '@',
                       '[', '\\', ']', '^', '_', '|', '~'}
  const USERINFO_MARKS := {'!', '$', '%', '&', '\'', '(', ')', '*', '+', ',', '-', '.', ':', '_', '~'}
  const HOST_MARKS := {'!', '"', '$', '%', '&', '\'', '(', ')', '*', '+', ',', '-', '.', ';', '=', '\\', '_', '`',
                       '{', '|', '}', '~'}

  /** A character that is written as itself. */
  predicate Stands(c: char, marks: set<char>) { AlphaNum(c) || c in marks }

  lemma QueryAlphabet(c: char)
    ensures Kept(c, IsQuerySafe) <==> Stands(c, QUERY_MARKS)
  {
  }

  lemma FragmentAlphabet(c: char)
    ensures Kept(c, IsFragmentSafe) <==> Stands(c, FRAGMENT_MARKS)
  {
  }

  lemma PathAlphabet(c: char)
    ensures Kept(c, IsPathSafe) <==> Stands(c, PATH_MARKS)
  {
  }

  lemma UserinfoAlphabet(c: char)
    ensures Kept(c, IsUserinfoSafe) <==> Stands(c, USERINFO_MARKS)
  {
  }

  lemma HostAlphabet(c: char)
    ensures Kept(c, IsHostSafe) <==> Stands(c, HOST_MARKS)
  {
  }

  const HEX := "0123456789ABCDEF"

  /** One byte, escaped: section 2.1 of RFC 3986, in upper case. */
  function EscapeOf(b: byte): string { ['%', HEX[b / 16], HEX[b % 16]] }

  function EscapesOf(bytes: seq<byte>): seq<string>
  {
    seq(|bytes|, i requires 0 <= i < |bytes| => EscapeOf(bytes[i]))
  }

  /** A component as it has to be written: each character as itself if it stands, else as the escapes of its bytes. */
  function WrittenChar(c: char, marks: set<char>): string
  {
    if Stands(c, marks) then [c] else Concat(EscapesOf(Utf8(c)))
  }

  function Written(s: string, marks: set<char>): string
  {
    Concat(seq(|s|, i requires 0 <= i < |s| => WrittenChar(s[i], marks)))
  }

  lemma HexDigits(n: int)
    requires 0 <= n < 16
    ensures HexDigit(n) == HEX[n] && HexValue(HexDigit(n)) == n
    ensures HexValue("0123456789abcdef"[n]) == n
  {
  }

  lemma {:induction false} HexBytesEscapes(bytes: seq<byte>)
    ensures HexBytes(bytes) == Concat(EscapesOf(bytes))
  {
    if bytes != [] {
      HexBytesEscapes(bytes[1..]);
      HexDigits(bytes[0] / 16);
      HexDigits(bytes[0] % 16);
      assert EscapesOf(bytes) == [EscapeOf(bytes[0])] + EscapesOf(bytes[1..]);
    }
  }

  const LOWER_HEX := "0123456789abcdef"

  /** What percent-decoding gives for an escape, in either case. */
  lemma DecodedEscape(high: int, low: int, rest: string)
    requires 0 <= high < 16 && 0 <= low < 16
    ensures Decoded("%" + [HEX[high], HEX[low]] + rest) == [16 * high + low] + Decoded(rest)
    ensures Decoded("%" + [LOWER_HEX[high], LOWER_HEX[low]] + rest) == [16 * high + low] + Decoded(rest)
  {
    hide Decoded;
    HexDigits(high);
    HexDigits(low);
    HexCases(high);
    HexCases(low);
    OneEscape(HEX[high], HEX[low], rest);
    OneEscape(LOWER_HEX[high], LOWER_HEX[low], rest);
  }

  lemma HexCases(n: int)
    requires 0 <= n < 16
    ensures IsHex(HEX[n]) && IsHex(LOWER_HEX[n])
  {
  }

  /** And for any other character. */
  lemma DecodedOther(c: char, rest: string)
    requires c != '%'
    ensures Decoded([c] + rest) == Utf8(c) + Decoded(rest)
  {
    hide Utf8;
    assert ([c] + rest)[1..] == rest;
  }

  lemma OneEscape(a: char, b: char, rest: string)
    requires IsHex(a) && IsHex(b)
    ensures Decoded("%" + [a, b] + rest) == [HexValue(a) * 16 + HexValue(b)] + Decoded(rest)
  {
    var s := "%" + [a, b] + rest;
    assert s[0] == '%' && s[1] == a && s[2] == b && s[3..] == rest;
    assert EscapeAt(s, 0);
  }

  /** A safe set and the marks that stand for it. */
  ghost predicate SameAlphabet(safe: char -> bool, marks: set<char>)
  {
    forall c: char :: Kept(c, safe) <==> Stands(c, marks)
  }

  lemma {:induction false} EscapedIsWritten(s: string, safe: char -> bool, marks: set<char>)
    requires SameAlphabet(safe, marks)
    ensures Escaped(s, safe) == Written(s, marks)
  {
    hide Kept, Stands, Utf8;
    if s != "" {
      var t := s[1..];
      EscapedIsWritten(t, safe, marks);
      HexBytesEscapes(Utf8(s[0]));
      assert Kept(s[0], safe) <==> Stands(s[0], marks);
      var all := seq(|s|, i requires 0 <= i < |s| => WrittenChar(s[i], marks));
      var rest := seq(|t|, i requires 0 <= i < |t| => WrittenChar(t[i], marks));
      assert all == [WrittenChar(s[0], marks)] + rest;
    }
  }

  lemma Alphabets()
    ensures SameAlphabet(IsQuerySafe, QUERY_MARKS) && SameAlphabet(IsFragmentSafe, FRAGMENT_MARKS)
    ensures SameAlphabet(IsPathSafe, PATH_MARKS) && SameAlphabet(IsUserinfoSafe, USERINFO_MARKS)
    ensures SameAlphabet(IsHostSafe, HOST_MARKS)
  {
    forall c: char
      ensures Kept(c, IsQuerySafe) <==> Stands(c, QUERY_MARKS)
      ensures Kept(c, IsFragmentSafe) <==> Stands(c, FRAGMENT_MARKS)
      ensures Kept(c, IsPathSafe) <==> Stands(c, PATH_MARKS)
      ensures Kept(c, IsUserinfoSafe) <==> Stands(c, USERINFO_MARKS)
      ensures Kept(c, IsHostSafe) <==> Stands(c, HOST_MARKS)
    {
      QueryAlphabet(c);
      FragmentAlphabet(c);
      PathAlphabet(c);
      UserinfoAlphabet(c);
      HostAlphabet(c);
    }
  }

  /** What `quote` writes, for each of the safe sets of the components. */
  lemma QuotedIsWritten(s: string)
    ensures Quoted(s, IsQuerySafe) == Written(s, QUERY_MARKS) && Quoted(s, IsFragmentSafe) == Written(s, FRAGMENT_MARKS)
    ensures Quoted(s, IsPathSafe) == Written(s, PATH_MARKS) && Quoted(s, IsUserinfoSafe) == Written(s, USERINFO_MARKS)
    ensures Quoted(s, IsHostSafe) == Written(s, HOST_MARKS)
  {
    hide Quoted, Escaped, Written, SameAlphabet;
    Alphabets();
    QuotedIsCharwise(s, IsQuerySafe);
    QuotedIsCharwise(s, IsFragmentSafe);
    QuotedIsCharwise(s, IsPathSafe);
    QuotedIsCharwise(s, IsUserinfoSafe);
    QuotedIsCharwise(s, IsHostSafe);
    EscapedIsWritten(s, IsQuerySafe, QUERY_MARKS);
    EscapedIsWritten(s, IsFragmentSafe, FRAGMENT_MARKS);
    EscapedIsWritten(s, IsPathSafe, PATH_MARKS);
    EscapedIsWritten(s, IsUserinfoSafe, USERINFO_MARKS);
    EscapedIsWritten(s, IsHostSafe, HOST_MARKS);
  }

  /** Text in which every character stands is written as itself. */
  lemma {:induction false} WrittenAsItself(s: string, marks: set<char>)
    requires forall i | 0 <= i < |s| :: Stands(s[i], marks)
    ensures Written(s, marks) == s
  {
    if s != "" {
      var t := s[1..];
      WrittenAsItself(t, marks);
      var all := seq(|s|, i requires 0 <= i < |s| => WrittenChar(s[i], marks));
      assert all == [[s[0]]] + seq(|t|, i requires 0 <= i < |t| => WrittenChar(t[i], marks));
    }
  }

  /** And nothing else is left in what is written. */
  lemma WrittenStands(s: string)
    ensures forall i | 0 <= i < |Written(s, QUERY_MARKS)| :: Stands(Written(s, QUERY_MARKS)[i], QUERY_MARKS)
    ensures forall i | 0 <= i < |Written(s, FRAGMENT_MARKS)| :: Stands(Written(s, FRAGMENT_MARKS)[i], FRAGMENT_MARKS)
    ensures forall i | 0 <= i < |Written(s, PATH_MARKS)| :: Stands(Written(s, PATH_MARKS)[i], PATH_MARKS)
    ensures forall i | 0 <= i < |Written(s, USERINFO_MARKS)| :: Stands(Written(s, USERINFO_MARKS)[i], USERINFO_MARKS)
    ensures forall i | 0 <= i < |Written(s, HOST_MARKS)| :: Stands(Written(s, HOST_MARKS)[i], HOST_MARKS)
  {
    hide Quoted, Written, Kept, Stands;
    Alphabets();
    QuotedIsWritten(s);
    QuotedAlphabet(s, IsQuerySafe);
    QuotedAlphabet(s, IsFragmentSafe);
    QuotedAlphabet(s, IsPathSafe);
    QuotedAlphabet(s, IsUserinfoSafe);
    QuotedAlphabet(s, IsHostSafe);
  }

  function WrittenOrNone(s: Option<string>, marks: set<char>): Option<string>
  {
    if s.None? then None else Some(Written(s.value, marks))
  }

  /** Every component of a parsed URL, character by character: the component the text was split into, the path
      after its dot segments, with the characters that do not stand in it escaped and all others as they were. */
  lemma ParsedComponents(lib: Library, url: string)
    ensures Parse(lib, url, NO_KEYWORDS).Ok? ==>
              var p := Parse(lib, url, NO_KEYWORDS).value;
              var parts := SplitUrl(url);
              var authority := SplitAuthority(OrEmpty(parts.authority));
              && p.userinfo == Written(OrEmpty(authority.userinfo), USERINFO_MARKS)
              && p.path == Written(if p.HasScheme() || p.HasAuthority() then Normalized(parts.path) else parts.path,
                                   PATH_MARKS)
              && p.query == WrittenOrNone(parts.query, QUERY_MARKS)
              && p.fragment == WrittenOrNone(parts.fragment, FRAGMENT_MARKS)
  {
    hide Quoted, Written, SplitUrl, SplitAuthority, EncodeHost, NormalizePort, Lower;
    ParseIsNormalize(lib, url);
    var raw := RawOf(url, NO_KEYWORDS);
    QuotedIsWritten(raw.userinfo);
    QuotedIsWritten(OrEmpty(raw.query));
    QuotedIsWritten(OrEmpty(raw.fragment));
    QuotedIsWritten(Normalized(raw.path));
    QuotedIsWritten(raw.path);
  }

  /** So is a registered name, once it is lowered. */
  lemma ParsedHost(lib: Library, host: string)
    requires host != "" && !Ipv4Style(host) && !Bracketed(host) && forall i | 0 <= i < |host| :: IsAscii(host[i])
    ensures EncodeHost(lib, host) == Some(Written(Lower(host), HOST_MARKS))
  {
    hide Quoted, Written, Lower, Ipv4Style;
    QuotedIsWritten(Lower(host));
  }

  // ----- letters -----

  lemma LowerLetters(c: char)
    ensures LowerChar(c) == if 0x41 <= c as int <= 0x5A then (c as int + 0x20) as char else c
    ensures IsAlpha(c) <==> 0x41 <= c as int <= 0x5A || 0x61 <= c as int <= 0x7A
    ensures IsSchemeChar(c) <==> AlphaNum(c) || c in {'+', '-', '.'}
    ensures IsDigit(c) <==> 0x30 <= c as int <= 0x39
    ensures IsHex(c) <==> 0x30 <= c as int <= 0x39 || 0x41 <= c as int <= 0x46 || 0x61 <= c as int <= 0x66
    ensures IsControl(c) <==> c as int <= 0x1F || c as int == 0x7F
  {
  }

  // ----- the authority -----

  /** Host, separator and port make up the text. A host in brackets runs to the last closing one, any other to the
      first colon; a port starts behind one colon. */
  predicate HostPort(rest: string, host: string, separator: string, port: string)
  {
    && rest == host + separator + port && separator in {"", ":"}
    && if rest != "" && rest[0] == '[' && ']' in rest
       then && host != "" && host[|host| - 1] == ']' && ']' !in port
            && (separator == "" && port != "" ==> port[0] != ':')
       else ':' !in host && (separator == "" ==> port == "")
  }

  /** User information is everything before the last at sign, if there is one. */
  ghost predicate AuthoritySplits(s: string, a: AuthorityParts)
  {
    exists rest ::
      && '@' !in rest && s == (if a.userinfo.None? then rest else a.userinfo.value + "@" + rest)
      && (HostPort(rest, a.host, "", a.port) || HostPort(rest, a.host, ":", a.port))
  }

  /** The text starts with a bracket that is closed later on. */
  predicate Opens(rest: string) { rest != "" && rest[0] == '[' && ']' in rest }

  lemma BracketSpan(rest: string, host: string, tail: string)
    requires Opens(rest) && rest == host + tail && host != "" && host[|host| - 1] == ']' && ']' !in tail
    ensures HostSpan(rest) == |host|
  {
    var front := host[..|host| - 1];
    assert host == front + [']'];
    assert rest == front + [']'] + tail;
    hide LastIndex;
    LastIndexOf(front, ']', tail);
  }

  lemma PlainSpan(rest: string, host: string, tail: string)
    requires !Opens(rest) && rest == host + tail && '@' !in rest && ':' !in host && (tail == "" || tail[0] == ':')
    ensures HostSpan(rest) == |host|
  {
    hide LastIndex, SpanNot;
    NoClose(rest);
    assert forall i | 0 <= i < |host| :: host[i] == rest[i];
    SpanNotOf(host, tail, IsHostEnd);
  }

  lemma NoClose(rest: string)
    ensures LastIndex(rest, ']').Some? <==> ']' in rest
  {
  }

  lemma HostEnds(rest: string, host: string, separator: string, port: string)
    requires HostPort(rest, host, separator, port) && '@' !in rest
    ensures SplitHostPort(rest) == AuthorityParts(None, host, port)
  {
    hide HostSpan;
    var tail := separator + port;
    assert rest == host + tail;
    if Opens(rest) {
      BracketSpan(rest, host, tail);
    } else {
      PlainSpan(rest, host, tail);
    }
    assert rest[..|host|] == host && rest[|host|..] == tail;
    assert separator == ":" ==> tail[1..] == port;
  }

  lemma HostSpanEnds(rest: string)
    requires '@' !in rest
    ensures var n := HostSpan(rest);
            if Opens(rest) then n > 0 && rest[n - 1] == ']' && ']' !in rest[n..]
            else ':' !in rest[..n] && (n < |rest| ==> rest[n] == ':')
  {
    hide LastIndex, SpanNot;
    NoClose(rest);
    var n := HostSpan(rest);
    assert forall i | 0 <= i < |rest[n..]| :: rest[n..][i] == rest[n + i];
    assert n < |rest| ==> rest[n] in rest;
  }

  lemma HostFound(rest: string)
    requires '@' !in rest
    ensures var a := SplitHostPort(rest);
            && a.userinfo.None?
            && (HostPort(rest, a.host, "", a.port) || HostPort(rest, a.host, ":", a.port))
  {
    hide HostSpan;
    HostSpanEnds(rest);
    var n := HostSpan(rest);
    var host, tail := rest[..n], rest[n..];
    assert rest == host + tail;
    if tail != "" && tail[0] == ':' {
      assert tail == ":" + tail[1..] && rest == host + ":" + tail[1..];
      assert HostPort(rest, host, ":", tail[1..]);
    } else {
      assert rest == host + "" + tail;
      assert HostPort(rest, host, "", tail);
    }
  }

  /** Exactly how an authority is split. */
  lemma SplitAuthorityIff(s: string, a: AuthorityParts)
    ensures SplitAuthority(s) == a <==> AuthoritySplits(s, a)
  {
    hide SplitHostPort, HostPort, SplitAuthority;
    if rest :| '@' !in rest && s == (if a.userinfo.None? then rest else a.userinfo.value + "@" + rest)
               && (HostPort(rest, a.host, "", a.port) || HostPort(rest, a.host, ":", a.port)) {
      SplitAtSign(if a.userinfo.None? then "" else a.userinfo.value, rest);
      HostEnds(rest, a.host, if HostPort(rest, a.host, "", a.port) then "" else ":", a.port);
    }
    if SplitAuthority(s) == a {
      AuthoritySplit(s);
    }
  }

  lemma AuthoritySplit(s: string)
    ensures AuthoritySplits(s, SplitAuthority(s))
  {
    hide HostPort, SplitHostPort;
    var at := LastIndex(s, '@');
    var rest := if at.None? then s else s[at.value + 1..];
    assert '@' !in rest && (at.Some? ==> s == s[..at.value] + "@" + rest);
    HostFound(rest);
    var a := SplitAuthority(s);
    assert s == (if a.userinfo.None? then rest else a.userinfo.value + "@" + rest);
  }

  // ----- addresses -----

  predicate IsNumber(s: string) { s != "" && forall i | 0 <= i < |s| :: 0x30 <= s[i] as int <= 0x39 }

  /** Four numbers with full stops between them. */
  ghost predicate FourNumbers(s: string)
  {
    exists a, b, c, d :: AreFour(s, a, b, c, d)
  }

  predicate AreFour(s: string, a: string, b: string, c: string, d: string)
  {
    IsNumber(a) && IsNumber(b) && IsNumber(c) && IsNumber(d) && s == a + "." + (b + "." + (c + "." + d))
  }

  lemma FirstNumber(s: string, n: nat) returns (run: string, rest: string)
    requires n >= 1 && DigitRuns(s, n + 1)
    ensures IsNumber(run) && s == run + "." + rest && DigitRuns(rest, n)
  {
    var k := Span(s, IsDigit);
    run, rest := s[..k], s[k + 1..];
  }

  lemma OneNumber(s: string)
    ensures DigitRuns(s, 1) <==> IsNumber(s)
  {
    if IsNumber(s) {
      DigitRun(s);
    }
  }

  /** Exactly which hosts are taken for IPv4 addresses. */
  lemma Ipv4StyleIff(s: string)
    ensures Ipv4Style(s) <==> FourNumbers(s)
  {
    hide DigitRuns, IsNumber;
    if Ipv4Style(s) {
      var a, r3 := FirstNumber(s, 3);
      var b, r2 := FirstNumber(r3, 2);
      var c, d := FirstNumber(r2, 1);
      OneNumber(d);
      assert AreFour(s, a, b, c, d);
    }
    if a, b, c, d :| AreFour(s, a, b, c, d) {
      OneNumber(d);
      NumberStep(c, d, 1);
      NumberStep(b, c + "." + d, 2);
      NumberStep(a, b + "." + (c + "." + d), 3);
    }
  }

  lemma NumberStep(run: string, rest: string, n: nat)
    requires IsNumber(run) && n >= 1 && DigitRuns(rest, n)
    ensures DigitRuns(run + "." + rest, n + 1)
  {
    DigitRunsStep(run, rest, n);
  }

  // ----- the port -----

  /** Digits, with single underscores between them. */
  predicate IsNumeral(lib: Library, s: string)
  {
    && s != "" && s[0] != '_' && s[|s| - 1] != '_'
    && (forall i | 0 <= i < |s| :: s[i] == '_' || DigitValue(lib, s[i]).Some?)
    && (forall i | 0 <= i < |s| - 1 :: s[i] != '_' || s[i + 1] != '_')
  }

  function NumeralValue(lib: Library, s: string): nat
  {
    if s == "" then 0
    else
      var high, low := NumeralValue(lib, s[..|s| - 1]), DigitValue(lib, s[|s| - 1]);
      if low.None? then high else 10 * high + low.value
  }

  lemma {:induction false} ParseDigitsOf(lib: Library, s: string)
    ensures ParseDigits(lib, s) == if IsNumeral(lib, s) then Some(NumeralValue(lib, s)) else None
    decreases |s|
  {
    if |s| > 1 && DigitValue(lib, s[|s| - 1]).Some? {
      var front := s[..|s| - 1];
      var t := if front[|front| - 1] == '_' then front[..|front| - 1] else front;
      ParseDigitsOf(lib, t);
      assert NumeralValue(lib, front) == NumeralValue(lib, t);
      assert IsNumeral(lib, s) ==> IsNumeral(lib, t);
      if IsNumeral(lib, t) {
        assert forall i | 0 <= i < |t| :: s[i] == t[i];
        assert forall i | |t| <= i < |s| :: s[i] == '_' || i == |s| - 1;
      }
    } else {
      assert NumeralValue(lib, "") == 0;
      assert |s| == 1 ==> s[..0] == "";
    }
  }

  /** ASCII white space of Python's `str.strip`. */
  lemma TextSpaces(lib: Library, c: char)
    requires IsAscii(c)
    ensures IsTextSpace(lib, c) <==> c as int in {0x09, 0x0A, 0x0B, 0x0C, 0x0D, 0x1C, 0x1D, 0x1E, 0x1F, 0x20}
    ensures DigitValue(lib, c) == if 0x30 <= c as int <= 0x39 then Some(c as int - 0x30) else None
  {
  }

  predicate AllSpace(lib: Library, s: string) { forall i | 0 <= i < |s| :: IsTextSpace(lib, s[i]) }

  /** White space, a sign, a numeral and white space. */
  predicate IsInteger(lib: Library, text: string, before: string, sign: string, numeral: string, after: string)
  {
    && text == before + (sign + numeral) + after && AllSpace(lib, before) && AllSpace(lib, after)
    && sign in {"", "+", "-"} && IsNumeral(lib, numeral)
    && !IsTextSpace(lib, (sign + numeral)[0]) && !IsTextSpace(lib, numeral[|numeral| - 1])
  }

  lemma {:induction false} StripLeftOf(a: string, core: string, p: char -> bool)
    requires (forall i | 0 <= i < |a| :: p(a[i])) && (core == "" || !p(core[0]))
    ensures StripLeft(a + core, p) == core
  {
    if a == "" {
      assert a + core == core;
    } else {
      assert (a + core)[1..] == a[1..] + core;
      StripLeftOf(a[1..], core, p);
    }
  }

  lemma {:induction false} StripRightOf(core: string, a: string, p: char -> bool)
    requires (forall i | 0 <= i < |a| :: p(a[i])) && (core == "" || !p(core[|core| - 1]))
    ensures StripRight(core + a, p) == core
    decreases |a|
  {
    if a == "" {
      assert core + a == core;
    } else {
      assert (core + a)[..|core + a| - 1] == core + a[..|a| - 1];
      StripRightOf(core, a[..|a| - 1], p);
    }
  }

  /** Text of that form is the number its numeral stands for. */
  lemma ParseIntOf(lib: Library, text: string, before: string, sign: string, numeral: string, after: string)
    requires IsInteger(lib, text, before, sign, numeral, after)
    ensures ParseInt(lib, text)
            == Some(Negate(sign == "-", NumeralValue(lib, numeral)))
  {
    var core, space := sign + numeral, (c: char) => IsTextSpace(lib, c);
    assert text == before + (core + after) && (core + after)[0] == core[0];
    assert core[|core| - 1] == numeral[|numeral| - 1];
    StripLeftOf(before, core + after, space);
    StripRightOf(core, after, space);
    ParseDigitsOf(lib, numeral);
    assert DigitValue(lib, '-').None? && DigitValue(lib, '+').None?;
    assert sign != "" ==> core[0] == sign[0] && core[1..] == numeral;
    assert sign == "" ==> core == numeral;
  }

  lemma {:induction false} StripLeftParts(s: string, p: char -> bool) returns (a: string)
    ensures s == a + StripLeft(s, p) && forall i | 0 <= i < |a| :: p(a[i])
  {
    if s == "" || !p(s[0]) {
      a := "";
    } else {
      a := StripLeftParts(s[1..], p);
      a := [s[0]] + a;
      assert s == [s[0]] + s[1..];
    }
  }

  lemma {:induction false} StripRightParts(s: string, p: char -> bool) returns (a: string)
    ensures s == StripRight(s, p) + a && forall i | 0 <= i < |a| :: p(a[i])
  {
    if s == "" || !p(s[|s| - 1]) {
      a := "";
    } else {
      a := StripRightParts(s[..|s| - 1], p);
      a := a + [s[|s| - 1]];
    }
  }

  lemma NumeralNonempty(lib: Library, s: string)
    ensures IsNumeral(lib, s) ==> s != ""
  {
  }

  /** And only text of that form is a number. */
  lemma ParseIntForm(lib: Library, text: string)
    returns (before: string, sign: string, numeral: string, after: string)
    requires ParseInt(lib, text).Some?
    ensures IsInteger(lib, text, before, sign, numeral, after)
  {
    hide StripLeft, StripRight, ParseDigits, IsNumeral, NumeralValue;
    var space := (c: char) => IsTextSpace(lib, c);
    var left := StripLeft(text, space);
    var core := StripRight(left, space);
    before := StripLeftParts(text, space);
    after := StripRightParts(left, space);
    var signed := core != "" && (core[0] == '-' || core[0] == '+');
    sign := if signed then [core[0]] else "";
    numeral := if signed then core[1..] else core;
    ParseDigitsOf(lib, numeral);
    assert core == sign + numeral && text == before + core + after;
    StrippedEnds(text, space);
    NumeralNonempty(lib, numeral);
  }

  lemma StrippedEnds(s: string, p: char -> bool)
    ensures var left := StripLeft(s, p);
            var core := StripRight(left, p);
            core != "" ==> !p(core[0]) && !p(core[|core| - 1])
  {
    var left := StripLeft(s, p);
    StrippedLeft(s, p);
    StrippedRight(left, p);
  }

  lemma {:induction false} StrippedLeft(s: string, p: char -> bool)
    ensures StripLeft(s, p) != "" ==> !p(StripLeft(s, p)[0])
  {
    if s != "" && p(s[0]) {
      StrippedLeft(s[1..], p);
    }
  }

  lemma {:induction false} StrippedRight(s: string, p: char -> bool)
    ensures StripRight(s, p) != "" ==> !p(StripRight(s, p)[|StripRight(s, p)| - 1])
    ensures StripRight(s, p) <= s
  {
    if s != "" && p(s[|s| - 1]) {
      StrippedRight(s[..|s| - 1], p);
    }
  }

  /** A port is printed without leading zeros, and with a sign only if it is negative. */
  lemma {:induction false} PrintedPort(n: int)
    ensures n >= 0 ==> IsNumber(IntText(n)) && (IntText(n)[0] == '0' ==> IntText(n) == "0")
    ensures n < 0 ==> IntText(n) == "-" + IntText(-n)
    decreases if n < 0 then -n else n
  {
    if n >= 10 {
      PrintedPort(n / 10);
      assert IntText(n) == IntText(n / 10) + [DigitChar(n % 10)];
    }
  }

  /** The schemes that have a default port, and no others. */
  lemma DefaultPorts(scheme: string, port: int)
    ensures DefaultPort(scheme) == Some(port) <==>
            (scheme, port) in {("ftp", 21), ("http", 80), ("ws", 80), ("https", 443), ("wss", 443)}
  {
  }

  // ----- keywords -----

  /** A component keyword has to be short and without control characters. */
  predicate Clean(k: Keyword)
  {
    k.Text? ==> |k.text| <= 65536 && forall i | 0 <= i < |k.text| :: 0x20 <= k.text[i] as int != 0x7F
  }

  predicate AllClean(kw: Keywords)
  {
    && Clean(kw.scheme) && Clean(kw.authority) && Clean(kw.userinfo) && Clean(kw.host) && Clean(kw.port)
    && Clean(kw.path) && Clean(kw.query) && Clean(kw.fragment)
  }

  /** Each of them has to keep to its own characters. */
  predicate AllMatch(kw: Keywords)
  {
    && (kw.scheme.Text? && kw.scheme.text != "" ==>
          && !(kw.scheme.text[0] in {'+', '-', '.'}) && !('0' <= kw.scheme.text[0] <= '9')
          && forall i | 0 <= i < |kw.scheme.text| ::
               AlphaNum(kw.scheme.text[i]) || kw.scheme.text[i] in {'+', '-', '.'})
    && (kw.authority.Text? ==> '/' !in kw.authority.text && '?' !in kw.authority.text && '#' !in kw.authority.text)
    && (kw.userinfo.Text? ==> '@' !in kw.userinfo.text)
    && (kw.host.Text? ==> ':' !in kw.host.text || Bracketed(kw.host.text))
    && (kw.path.Text? ==> '?' !in kw.path.text && '#' !in kw.path.text)
    && (kw.query.Text? ==> '#' !in kw.query.text)
  }

  /** The same, by the source's expressions. */
  predicate AllFit(kw: Keywords)
  {
    && (kw.scheme.Text? ==> SchemeText(kw.scheme.text))
    && (kw.authority.Text? ==> Avoids(kw.authority.text, IsAuthorityEnd))
    && (kw.userinfo.Text? ==> Avoids(kw.userinfo.text, IsAt))
    && (kw.host.Text? ==> Bracketed(kw.host.text) || Avoids(kw.host.text, IsColon))
    && (kw.path.Text? ==> Avoids(kw.path.text, IsPathEnd))
    && (kw.query.Text? ==> Avoids(kw.query.text, IsHash))
  }

  /** Exactly which component keywords are accepted. */
  lemma KeywordsAccepted(kw: Keywords)
    ensures AcceptableKeywords(kw) <==> AllClean(kw) && AllMatch(kw)
  {
    KeywordsFit(kw);
    hide AcceptableKeywords, AllClean, Bracketed, SchemeText, Avoids;
    if kw.scheme.Text? {
      SchemeIff(kw.scheme.text);
    }
    TextIff(kw.authority);
    TextIff(kw.userinfo);
    TextIff(kw.host);
    TextIff(kw.path);
    TextIff(kw.query);
  }

  lemma KeywordsFit(kw: Keywords)
    ensures AcceptableKeywords(kw) <==> AllClean(kw) && AllFit(kw)
  {
    CleanIff(kw.scheme);
    CleanIff(kw.authority);
    CleanIff(kw.userinfo);
    CleanIff(kw.host);
    CleanIff(kw.port);
    CleanIff(kw.path);
    CleanIff(kw.query);
    CleanIff(kw.fragment);
    hide Clean, Printable, Bracketed, SchemeText, Avoids;
  }

  lemma TextIff(k: Keyword)
    ensures k.Text? ==>
              && (Avoids(k.text, IsAuthorityEnd) <==> '/' !in k.text && '?' !in k.text && '#' !in k.text)
              && (Avoids(k.text, IsAt) <==> '@' !in k.text) && (Avoids(k.text, IsColon) <==> ':' !in k.text)
              && (Avoids(k.text, IsPathEnd) <==> '?' !in k.text && '#' !in k.text)
              && (Avoids(k.text, IsHash) <==> '#' !in k.text)
  {
  }

  lemma CleanIff(k: Keyword)
    ensures Clean(k) <==> (k.Text? ==> |k.text| <= MAX_URL_LENGTH && Printable(k.text))
  {
  }

  lemma SchemeIff(s: string)
    ensures SchemeText(s) <==>
            (s != "" ==>
               && !(s[0] in {'+', '-', '.'}) && !('0' <= s[0] <= '9')
               && forall i | 0 <= i < |s| :: AlphaNum(s[i]) || s[i] in {'+', '-', '.'})
  {
  }

  lemma AddressKeyword(lib: Library, address: string)
    requires ':' in address && lib.isIpv6(address) && address[0] != '['
    ensures var text := "[" + address + "]";
            && BracketHost(Text(address)) == Text(text) == BracketHost(Text(text))
            && EncodeHost(lib, text) == Some(address)
  {
    hide Ipv4Style;
    var text := "[" + address + "]";
    assert text[1..|text| - 1] == address;
    BracketedNotIpv4(text);
  }

  lemma CopiedAddress(lib: Library, p: Url, address: string)
    requires ':' in address && lib.isIpv6(address) && address[0] != '['
    ensures var copy := Copied(lib, p, NO_KEYWORDS.(host := Text("[" + address + "]")));
            copy.Ok? ==> copy.value.host == address
  {
    hide EncodeHost, BracketHost, NormalPath, CopiedPort, CopiedUserinfo, Lower, Replaced;
    AddressKeyword(lib, address);
  }

  /** copy_with takes an IPv6 address as "host" with brackets or without, and stores it without. */
  lemma CopyWithAddress(lib: Library, p: Url, address: string)
    requires Canonical(lib, p) && ':' in address && lib.isIpv6(address) && address[0] != '['
    ensures var bare := CopyWith(lib, p, NO_KEYWORDS.(host := Text(address)));
            && bare == CopyWith(lib, p, NO_KEYWORDS.(host := Text("[" + address + "]")))
            && (bare.Ok? ==> bare.value.host == address)
  {
    hide AcceptableKeywords, TooLong, Copied, CopyWith, EncodeHost, BracketHost, Canonical;
    AddressKeyword(lib, address);
    CopiedAddress(lib, p, address);
    CopyWithAnything(lib, p, NO_KEYWORDS.(host := Text(address)));
    CopyWithAnything(lib, p, NO_KEYWORDS.(host := Text("[" + address + "]")));
  }
}
