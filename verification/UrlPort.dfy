/** Ports: Python's `int(text)`, `str(number)` and `normalize_port` of httpxp/_urlparse.py. */
module UrlPort {
  import opened Prelude
  import opened Text

  /** Host text `idna.encode` may return: lower-case ASCII labels. They may look like an IPv4 address, for it
      also splits labels at other full stops than the ASCII one. */
  type IdnaHost = s: string | IsIdnaHost(s) witness "a"

  predicate IsIdnaHost(s: string)
  {
    s != "" && forall i | 0 <= i < |s| :: 'a' <= s[i] <= 'z' || IsDigit(s[i]) || s[i] == '-' || s[i] == '.'
  }

  /** Decimal value of a character. */
  type Digit = d: int | 0 <= d < 10

  /** The library calls URL parsing makes into code that is not modelled. */
  datatype Library = Library(
    isIpv4: string -> bool,               // ipaddress.IPv4Address accepts
    isIpv6: string -> bool,               // ipaddress.IPv6Address accepts, given a ":" in its argument
    idna: string -> Option<IdnaHost>,     // idna.encode(host.lower()), None for IDNAError
    unicodeDigit: char -> Option<Digit>,  // decimal value of a non-ASCII character
    unicodeSpace: char -> bool)           // non-ASCII white space

  /** `^[0-9]+\.[0-9]+\.[0-9]+\.[0-9]+$` */
  predicate Ipv4Style(s: string) { DigitRuns(s, 4) }

  predicate DigitRuns(s: string, n: nat)
    decreases n
  {
    var k := Span(s, IsDigit);
    k > 0 && if n <= 1 then k == |s| else k < |s| && s[k] == '.' && DigitRuns(s[k + 1..], n - 1)
  }

  lemma {:induction false} DigitRunsAlphabet(s: string, n: nat)
    requires DigitRuns(s, n)
    ensures s != "" && forall i | 0 <= i < |s| :: IsDigit(s[i]) || s[i] == '.'
    decreases n
  {
    var k := Span(s, IsDigit);
    if n > 1 {
      DigitRunsAlphabet(s[k + 1..], n - 1);
      assert forall i | k < i < |s| :: s[i] == s[k + 1..][i - k - 1];
    }
  }

  lemma DigitRun(run: string)
    requires run != "" && forall i | 0 <= i < |run| :: IsDigit(run[i])
    ensures DigitRuns(run, 1)
  {
    assert Span(run, IsDigit) == |run|;
  }

  lemma DigitRunsStep(run: string, rest: string, n: nat)
    requires run != "" && forall i | 0 <= i < |run| :: IsDigit(run[i])
    requires n >= 1 && DigitRuns(rest, n)
    ensures DigitRuns(run + "." + rest, n + 1)
  {
    var s := run + "." + rest;
    assert s[|run|] == '.' && forall i | 0 <= i < |run| :: s[i] == run[i];
    assert Span(s, IsDigit) == |run| && s[|run| + 1..] == rest;
  }

  predicate IsTextSpace(lib: Library, c: char)
  {
    if IsAscii(c) then c == ' ' || 0x09 <= c as int <= 0x0D || 0x1C <= c as int <= 0x1F
    else lib.unicodeSpace(c)
  }

  function DigitValue(lib: Library, c: char): Option<Digit>
  {
    if !IsAscii(c) then lib.unicodeDigit(c)
    else if IsDigit(c) then Some(c as int - '0' as int)
    else None
  }

  /** Digits with single underscores between them. */
  function ParseDigits(lib: Library, s: string): Option<nat>
    decreases |s|
  {
    if s == "" || DigitValue(lib, s[|s| - 1]).None? then None
    else if |s| == 1 then Some(DigitValue(lib, s[0]).value)
    else
      var front := s[..|s| - 1];
      var high := ParseDigits(lib, if front[|front| - 1] == '_' then front[..|front| - 1] else front);
      if high.None? then None else Some(10 * high.value + DigitValue(lib, s[|s| - 1]).value)
  }

  function Negate(negative: bool, n: int): int { if negative then -n else n }

  function Signed(negative: bool, n: Option<nat>): Option<int>
  {
    match n
    case None => None
    case Some(v) => Some(Negate(negative, v))
  }

  /** `int(text)`, None for ValueError. */
  function ParseInt(lib: Library, text: string): Option<int>
  {
    var s := Strip(text, c => IsTextSpace(lib, c));
    var signed := s != "" && (s[0] == '-' || s[0] == '+');
    Signed(signed && s[0] == '-', ParseDigits(lib, if signed then s[1..] else s))
  }

  function DigitChar(d: Digit): char { ('0' as int + d) as char }

  function NatText(n: nat): (s: string)
    ensures s != "" && forall i | 0 <= i < |s| :: IsDigit(s[i])
  {
    (if n < 10 then "" else NatText(n / 10)) + [DigitChar(n % 10)]
  }

  /** `str(number)` */
  function IntText(n: int): (s: string)
    ensures s != "" && forall i | 0 <= i < |s| :: IsDigit(s[i]) || s[i] == '-'
  {
    if n < 0 then "-" + NatText(-n) else NatText(n)
  }

  lemma {:induction false} ParseNatText(lib: Library, n: nat)
    ensures ParseDigits(lib, NatText(n)) == Some(n)
    decreases n
  {
    var s := NatText(n);
    assert s[|s| - 1] == DigitChar(n % 10);
    if n >= 10 {
      ParseNatText(lib, n / 10);
      assert s[..|s| - 1] == NatText(n / 10);
    }
  }

  /** Reading a printed number gives the number back. */
  lemma ParseIntText(lib: Library, n: int)
    ensures ParseInt(lib, IntText(n)) == Some(n)
  {
    var s := IntText(n);
    assert !IsTextSpace(lib, s[0]) && !IsTextSpace(lib, s[|s| - 1]);
    StripShape(s, c => IsTextSpace(lib, c));
    if n < 0 {
      ParseNatText(lib, -n);
      assert s[1..] == NatText(-n);
    } else {
      ParseNatText(lib, n);
    }
  }

  function DefaultPort(scheme: string): Option<int>
  {
    if scheme == "ftp" then Some(21)
    else if scheme == "http" || scheme == "ws" then Some(80)
    else if scheme == "https" || scheme == "wss" then Some(443)
    else None
  }

  /** A port number with the scheme's default left out. */
  function NormalPort(port: Option<int>, scheme: string): Option<int>
  {
    if port == DefaultPort(scheme) then None else port
  }

  /** `normalize_port`, None for InvalidURL. */
  function NormalizePort(lib: Library, port: string, scheme: string): Option<Option<int>>
  {
    if port == "" then Some(None)
    else
      var n := ParseInt(lib, port);
      if n.None? then None else Some(NormalPort(n, scheme))
  }
}
