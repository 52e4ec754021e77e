/** What printing a parsed URL and parsing it again gives: exactly when it is the same URL. */
module UrlRoundTrip {
  import opened Prelude
  import opened Text
  import opened Quote
  import opened UrlPath
  import opened UrlParts
  import opened UrlPort
  import opened UrlParse

  // ----- canonical results -----

  predicate HostForm(lib: Library, host: string)
  {
    || host == ""
    || Ipv4Style(host)
    || Ipv6Form(lib, host)
    || RegName(host)
  }

  /** A host that looks like an IPv4 address is one. What IDNA encoding returns may look like an address that
      does not exist, such as `999.1.1.1`. */
  predicate Readable(lib: Library, host: string) { Ipv4Style(host) ==> lib.isIpv4(host) }

  /** Characters the scanners never leave in a host. */
  predicate IsOutsideHost(c: char) { IsControl(c) || IsAuthorityEnd(c) || c == '@' }

  predicate Ipv6Form(lib: Library, host: string)
  {
    ':' in host && lib.isIpv6(host) && Avoids(host, IsOutsideHost)
  }

  predicate RegName(host: string)
  {
    host != "" && !Ipv4Style(host) && AllKept(host, IsHostSafe)
  }

  predicate OptionKept(s: Option<string>, safe: char -> bool)
  {
    s.Some? ==> AllKept(s.value, safe)
  }

  /** What holds of every URL that parsing a text returns. */
  predicate Canonical(lib: Library, p: Url)
  {
    && SchemeText(p.scheme) && Lower(p.scheme) == p.scheme
    && AllKept(p.userinfo, IsUserinfoSafe)
    && HostForm(lib, p.host)
    && PathForm(p.path, p.HasScheme(), p.HasAuthority(), IsPathSafe)
    && OptionKept(p.query, IsQuerySafe)
    && OptionKept(p.fragment, IsFragmentSafe)
  }

  // ----- hosts -----

  lemma LowerDigits(s: string)
    requires forall i | 0 <= i < |s| :: IsDigit(Lower(s)[i]) || Lower(s)[i] == '.'
    ensures Lower(s) == s
  {
  }

  /** A registered name never turns into an IPv4 address by lowering and quoting. */
  lemma QuotedNotIpv4(host: string)
    requires !Ipv4Style(host)
    ensures !Ipv4Style(Quoted(Lower(host), IsHostSafe))
  {
    var q := Quoted(Lower(host), IsHostSafe);
    if Ipv4Style(q) {
      DigitRunsAlphabet(q, 4);
      QuotedIsCharwise(Lower(host), IsHostSafe);
      EscapedClean(Lower(host), IsHostSafe);
      LowerDigits(host);
    }
  }

  lemma EncodeHostForm(lib: Library, host: string)
    requires Avoids(host, IsOutsideHost)
    requires EncodeHost(lib, host).Some?
    ensures HostForm(lib, EncodeHost(lib, host).value)
  {
    hide Quoted, Lower, DigitRuns;
    var h := EncodeHost(lib, host).value;
    if host == "" || Ipv4Style(host) {
    } else if Bracketed(host) {
      assert h == host[1..|host| - 1];
      assert forall i | 0 <= i < |h| :: h[i] == host[i + 1];
    } else if forall i | 0 <= i < |host| :: IsAscii(host[i]) {
      QuotedNotIpv4(host);
      QuotedAlphabet(Lower(host), IsHostSafe);
      QuotedNonempty(Lower(host), IsHostSafe);
    } else {
      assert IsIdnaHost(h);
    }
  }

  /** What a host becomes when it is printed and read again: registered names are lowered once more. */
  function StableHost(host: string): string { if ':' in host then host else Lower(host) }

  lemma LowerAlphabet(s: string)
    requires AllKept(s, IsHostSafe)
    ensures AllKept(Lower(s), IsHostSafe)
    ensures Lower(Lower(s)) == Lower(s)
    ensures forall i | 0 <= i < |s| :: IsAscii(s[i])
  {
  }

  lemma LowerNotIpv4(s: string)
    requires !Ipv4Style(s)
    ensures !Ipv4Style(Lower(s))
  {
    if Ipv4Style(Lower(s)) {
      DigitRunsAlphabet(Lower(s), 4);
      LowerDigits(s);
    }
  }

  lemma Ipv4Lower(s: string)
    requires Ipv4Style(s)
    ensures ':' !in s && Lower(s) == s && s != "" && s[0] != '[' && Avoids(s, IsOutsideHost)
  {
    DigitRunsAlphabet(s, 4);
  }

  lemma Ipv6Again(lib: Library, host: string)
    requires Ipv6Form(lib, host)
    ensures EncodeHost(lib, HostText(host)) == Some(host)
    ensures Bracketed(HostText(host)) && Avoids(HostText(host), IsOutsideHost)
  {
    var s := HostText(host);
    assert s[1..|s| - 1] == host;
    if Ipv4Style(s) {
      Ipv4Lower(s);
    }
  }

  /** Characters of a registered name that matter to the scanners. */
  lemma RegNameChars(host: string)
    requires RegName(host)
    ensures Avoids(host, IsOutsideHost) && Avoids(host, IsHostEnd)
    ensures host[0] != '[' && ':' !in host
  {
  }

  lemma RegNameAgain(lib: Library, host: string)
    requires RegName(host)
    ensures EncodeHost(lib, host) == Some(Lower(host)) && RegName(Lower(host))
  {
    LowerAlphabet(host);
    LowerNotIpv4(host);
    QuotedFixed(Lower(host), IsHostSafe);
    RegNameChars(host);
  }

  lemma HostAgain(lib: Library, host: string)
    requires HostForm(lib, host)
    ensures EncodeHost(lib, HostText(host)) == if Readable(lib, host) then Some(StableHost(host)) else None
    ensures Readable(lib, StableHost(host)) <==> Readable(lib, host)
    ensures HostForm(lib, StableHost(host)) && StableHost(StableHost(host)) == StableHost(host)
    ensures |HostText(StableHost(host))| == |HostText(host)|
    ensures StableHost(host) == "" <==> host == ""
  {
    if host == "" {
    } else if Ipv4Style(host) {
      Ipv4Lower(host);
    } else if Ipv6Form(lib, host) {
      Ipv6Again(lib, host);
    } else {
      RegNameChars(host);
      RegNameAgain(lib, host);
      LowerNotIpv4(host);
      RegNameChars(Lower(host));
      LowerAlphabet(host);
    }
  }

  /** The host text ends where the authority expression says the host ends. */
  lemma HostTextShape(lib: Library, host: string)
    requires HostForm(lib, host)
    ensures Avoids(HostText(host), IsOutsideHost)
    ensures Bracketed(HostText(host))
            || (Avoids(HostText(host), IsHostEnd) && (host == "" || HostText(host)[0] != '['))
  {
    hide DigitRuns;
    if host == "" {
    } else if Ipv4Style(host) {
      DigitRunsAlphabet(host, 4);
    } else if Ipv6Form(lib, host) {
      Ipv6Again(lib, host);
    } else {
      RegNameChars(host);
    }
  }

  // ----- parsing returns canonical URLs -----

  /** What the scanners guarantee of the components of a printable text. */
  predicate RawForm(raw: Raw)
  {
    SchemeText(raw.scheme) && Avoids(raw.host, IsOutsideHost)
  }

  lemma PrintableAuthority(url: string, parts: Parts)
    requires Print(parts) == url && Printable(url) && parts.authority.Some?
    ensures Printable(parts.authority.value)
  {
    hide PrintTail;
    var scheme := if parts.scheme.None? then "" else parts.scheme.value + ":";
    var a := parts.authority.value;
    assert url == scheme + ("//" + a + PrintTail(parts));
    assert forall i | 0 <= i < |a| :: a[i] == url[|scheme| + 2 + i];
  }

  lemma RawOfText(url: string)
    requires Printable(url)
    ensures RawForm(RawOf(url, NO_KEYWORDS))
  {
    hide Print, SplitUrl, SplitAuthority;
    var parts := SplitUrl(url);
    PrintOfSplitUrl(url);
    if parts.authority.Some? {
      PrintableAuthority(url, parts);
    }
    SplitAuthorityShape(OrEmpty(parts.authority), c => !IsControl(c) && !IsAuthorityEnd(c));
  }

  lemma LowerScheme(s: string)
    requires SchemeText(s)
    ensures SchemeText(Lower(s)) && Lower(Lower(s)) == Lower(s)
  {
  }

  lemma NormalizeCanonical(lib: Library, raw: Raw)
    requires RawForm(raw) && Normalize(lib, raw).Ok?
    ensures Canonical(lib, Normalize(lib, raw).value)
  {
    var p := Normalize(lib, raw).value;
    LowerScheme(raw.scheme);
    EncodeHostForm(lib, raw.host);
    QuotedAlphabet(raw.userinfo, IsUserinfoSafe);
    QuotedAlphabet(OrEmpty(raw.query), IsQuerySafe);
    QuotedAlphabet(OrEmpty(raw.fragment), IsFragmentSafe);
    NormalPathForm(raw.path, p.HasScheme(), p.HasAuthority(), IsPathSafe);
  }

  lemma ParseIsNormalize(lib: Library, url: string)
    ensures Parse(lib, url, NO_KEYWORDS)
              == if |url| <= MAX_URL_LENGTH && Printable(url) then Normalize(lib, RawOf(url, NO_KEYWORDS))
                 else Err(InvalidURL)
  {
  }

  /** Every URL parsed from a text is canonical. */
  lemma ParseCanonical(lib: Library, url: string)
    ensures var r := Parse(lib, url, NO_KEYWORDS); r.Ok? ==> Canonical(lib, r.value)
  {
    ParseIsNormalize(lib, url);
    if Parse(lib, url, NO_KEYWORDS).Ok? {
      RawOfText(url);
      NormalizeCanonical(lib, RawOf(url, NO_KEYWORDS));
    }
  }

  // ----- reading a canonical URL again -----

  /** Its components as the scanners find them in the printed form. */
  function RawAgain(p: Url): Raw
  {
    Raw(p.scheme, p.userinfo, HostText(p.host), PortText(p.port), p.path, p.query, p.fragment)
  }

  /** The URL with its host lowered once more and a port that is its scheme's default left out. */
  function Settled(p: Url): Url
  {
    p.(host := StableHost(p.host), port := NormalPort(p.port, p.scheme))
  }

  lemma QuotedOptionFixed(s: Option<string>, safe: char -> bool)
    requires safe('%') && OptionKept(s, safe)
    ensures QuotedOrNone(s, safe) == s
  {
    if s.Some? {
      QuotedFixed(s.value, safe);
    }
  }

  lemma SettledKeeps(p: Url)
    ensures Settled(p).HasAuthority() ==> p.HasAuthority()
    ensures !p.HasScheme() ==> Settled(p).HasAuthority() == p.HasAuthority()
  {
  }

  lemma PortAgain(lib: Library, port: Option<int>, scheme: string)
    ensures NormalizePort(lib, PortText(port), scheme) == Some(NormalPort(port, scheme))
  {
    if port.Some? {
      ParseIntText(lib, port.value);
    }
  }

  lemma PathAgain(lib: Library, p: Url)
    requires Canonical(lib, p)
    ensures var q := Settled(p);
            NormalPath(p.path, q.HasScheme(), q.HasAuthority(), IsPathSafe) == Some(p.path)
  {
    SettledKeeps(p);
    NormalPathAgain(p.path, Settled(p).HasScheme(), Settled(p).HasAuthority(), IsPathSafe);
  }

  /** Normalising the components of a canonical URL settles its host and port and nothing else, if the host can
      be read at all. */
  lemma NormalizeAgain(lib: Library, p: Url)
    requires Canonical(lib, p)
    ensures Normalize(lib, RawAgain(p)) == if Readable(lib, p.host) then Ok(Settled(p)) else Err(InvalidURL)
  {
    hide Readable, Quoted, Lower, EncodeHost, NormalizePort, NormalPath, HostForm, PathForm, SchemeText;
    HostAgain(lib, p.host);
    PortAgain(lib, p.port, p.scheme);
    QuotedFixed(p.userinfo, IsUserinfoSafe);
    QuotedOptionFixed(p.query, IsQuerySafe);
    QuotedOptionFixed(p.fragment, IsFragmentSafe);
    PathAgain(lib, p);
  }

  lemma SettledCanonical(lib: Library, p: Url)
    requires Canonical(lib, p)
    ensures Canonical(lib, Settled(p)) && Settled(Settled(p)) == Settled(p)
  {
    HostAgain(lib, p.host);
    SettledKeeps(p);
  }

  lemma AuthorityReads(lib: Library, p: Url)
    requires Canonical(lib, p)
    ensures SplitAuthority(p.Authority())
              == AuthorityParts(if p.userinfo == "" then None else Some(p.userinfo), HostText(p.host), PortText(p.port))
    ensures p.Authority() == "" <==> !p.HasAuthority()
  {
    hide SplitAuthority, HostForm, PathForm, SchemeText;
    HostTextShape(lib, p.host);
    SplitAuthorityOf(if p.userinfo == "" then None else Some(p.userinfo), HostText(p.host), PortText(p.port));
  }

  /** Text that may stand inside a printed authority. */
  predicate AuthorityOnly(s: string) { Printable(s) && Avoids(s, IsAuthorityEnd) }

  lemma AuthorityOnlyConcat(a: string, b: string)
    requires AuthorityOnly(a) && AuthorityOnly(b)
    ensures AuthorityOnly(a + b)
  {
  }

  lemma PortChars(port: Option<int>)
    ensures AuthorityOnly(PortSuffix(PortText(port)))
  {
  }

  lemma ComponentsChars(lib: Library, p: Url)
    requires Canonical(lib, p)
    ensures AuthorityOnly(HostText(p.host)) && AuthorityOnly(p.userinfo) && AuthorityOnly("@")
  {
    hide HostForm, HostText, PathForm;
    HostTextShape(lib, p.host);
  }

  lemma AuthorityChars(lib: Library, p: Url)
    requires Canonical(lib, p)
    ensures AuthorityOnly(p.Authority())
  {
    hide AuthorityOnly;
    ComponentsChars(lib, p);
    PortChars(p.port);
    var hostPort := HostText(p.host) + PortSuffix(PortText(p.port));
    AuthorityOnlyConcat(HostText(p.host), PortSuffix(PortText(p.port)));
    AuthorityOnlyConcat(p.userinfo, "@");
    AuthorityOnlyConcat(p.userinfo + "@", hostPort);
  }

  /** The parts of the printed form. */
  function PartsOf(p: Url): Parts
  {
    Parts(if p.scheme == "" then None else Some(p.scheme),
          if p.Authority() == "" then None else Some(p.Authority()),
          p.path, p.query, p.fragment)
  }

  /** Printed forms that mean something else when read again: without an authority the path speaks for
      itself, and it may look like one, or like a scheme. */
  predicate Ambiguous(p: Url)
  {
    && !p.HasAuthority()
    && if p.HasScheme() then StartsWith(p.path, "//") else SchemeColon(p.path).Some?
  }

  lemma PrintableConcat(a: string, b: string)
    requires Printable(a) && Printable(b)
    ensures Printable(a + b)
  {
  }

  lemma PrintableSuffix(mark: string, s: Option<string>, safe: char -> bool)
    requires Printable(mark) && OptionKept(s, safe)
    requires forall c | safe(c) :: !IsControl(c)
    ensures Printable(Prefixed(mark, s))
  {
  }

  lemma PrintablePrint(parts: Parts)
    requires Printable(OrEmpty(parts.scheme)) && Printable(OrEmpty(parts.authority)) && Printable(parts.path)
    requires Printable(Prefixed("?", parts.query)) && Printable(Prefixed("#", parts.fragment))
    ensures Printable(Print(parts))
  {
    PrintableConcat(Prefixed("?", parts.query), Prefixed("#", parts.fragment));
    PrintableConcat(parts.path, PrintQuery(parts));
    PrintableConcat("//", OrEmpty(parts.authority));
    PrintableConcat(Prefixed("//", parts.authority), PrintTail(parts));
    PrintableConcat(OrEmpty(parts.scheme), ":");
    PrintableConcat(if parts.scheme.None? then "" else parts.scheme.value + ":", PrintHierarchy(parts));
  }

  lemma TextIsPrint(p: Url)
    ensures p.Text() == Print(PartsOf(p))
  {
  }

  lemma PrintableParts(lib: Library, p: Url)
    requires Canonical(lib, p)
    ensures Printable(p.path) && Printable(p.scheme)
    ensures Printable(Prefixed("?", p.query)) && Printable(Prefixed("#", p.fragment))
  {
    hide HostForm, Split, ValidPath;
    PrintableSuffix("?", p.query, IsQuerySafe);
    PrintableSuffix("#", p.fragment, IsFragmentSafe);
  }

  lemma PrintableText(lib: Library, p: Url)
    requires Canonical(lib, p)
    ensures Printable(p.Text())
  {
    hide Canonical, Print, Prefixed;
    AuthorityChars(lib, p);
    PrintableParts(lib, p);
    TextIsPrint(p);
    PrintablePrint(PartsOf(p));
  }

  lemma TextReads(lib: Library, p: Url)
    requires Canonical(lib, p) && !Ambiguous(p)
    ensures RawOf(p.Text(), NO_KEYWORDS) == RawAgain(p)
  {
    hide HostForm, SplitUrl, Print, SplitAuthority, NoDots;
    var parts := PartsOf(p);
    AuthorityReads(lib, p);
    AuthorityChars(lib, p);
    TextIsPrint(p);
    SplitUrlOfPrint(parts);
  }

  /** Reading the printed form of an unambiguous canonical URL succeeds if its host can be read, and only settles
      host and port. */
  lemma Reparse(lib: Library, p: Url)
    requires Canonical(lib, p) && !Ambiguous(p) && |p.Text()| <= MAX_URL_LENGTH
    ensures Parse(lib, p.Text(), NO_KEYWORDS) == if Readable(lib, p.host) then Ok(Settled(p)) else Err(InvalidURL)
  {
    ParseIsNormalize(lib, p.Text());
    PrintableText(lib, p);
    TextReads(lib, p);
    NormalizeAgain(lib, p);
  }

  // ----- ambiguous printed forms read back as something else -----

  lemma CanonicalTail(lib: Library, p: Url)
    requires Canonical(lib, p)
    ensures TailParts(PartsOf(p))
  {
    hide HostForm, Split, ValidPath, SchemeText;
  }

  lemma TextWithoutAuthority(lib: Library, p: Url)
    requires Canonical(lib, p) && !p.HasAuthority()
    ensures var rest := p.path + PrintQuery(PartsOf(p));
            p.Text() == if p.scheme == "" then rest else p.scheme + ":" + rest
    ensures PrintQuery(PartsOf(p)) == "" || IsPathEnd(PrintQuery(PartsOf(p))[0])
  {
    hide PrintQuery, HostForm, Split, SchemeText;
    CanonicalTail(lib, p);
    SplitQueryOf(PartsOf(p));
    TextIsPrint(p);
    AuthorityReads(lib, p);
  }

  lemma SchemeLikePath(lib: Library, p: Url)
    requires Canonical(lib, p) && !p.HasAuthority() && !p.HasScheme() && SchemeColon(p.path).Some?
    ensures RawOf(p.Text(), NO_KEYWORDS).scheme != ""
  {
    hide SplitHierarchy, SplitAuthority, HostForm, PrintQuery, SchemeColon, Split;
    var tail := PrintQuery(PartsOf(p));
    TextWithoutAuthority(lib, p);
    SchemeColonOfPath(p.path, tail);
    SchemeColonText(p.Text());
    assert p.path[0] == p.Text()[0] != ':';
  }

  lemma CanonicalSchemeAndPath(lib: Library, p: Url)
    requires Canonical(lib, p)
    ensures SchemeText(p.scheme) && Avoids(p.path, IsPathEnd)
  {
    hide HostForm, Split;
  }

  lemma SlashesRead(path: string, tail: string)
    requires StartsWith(path, "//") && Avoids(path, IsPathEnd) && (tail == "" || IsPathEnd(tail[0]))
    ensures var read := SplitHierarchy(path + tail).path;
            |read| < |path| && read == path[|path| - |read|..] && (read == "" || read[0] == '/')
  {
    hide SpanNot, SplitTail;
    var s, rest := path + tail, path[2..] + tail;
    NotSlashes(path, tail);
    assert s[2..] == rest;
    SpanNotBound(path[2..], tail, IsAuthorityEnd);
    var k := SpanNot(rest, IsAuthorityEnd);
    var y := path[2 + k..];
    assert s[2 + k..] == y + tail;
    SpanNotOf(y, tail, IsPathEnd);
    SplitTailPath(y + tail);
    assert (y + tail)[..|y|] == y;
    assert y != "" ==> y[0] == rest[k];
  }

  /** A scheme and a path that starts with two slashes: the path read back is a proper suffix. */
  lemma AuthorityLikePath(lib: Library, p: Url)
    requires Canonical(lib, p) && !p.HasAuthority() && p.HasScheme() && StartsWith(p.path, "//")
    ensures var path := RawOf(p.Text(), NO_KEYWORDS).path;
            |path| < |p.path| && path == p.path[|p.path| - |path|..] && (path == "" || path[0] == '/')
    ensures RawOf(p.Text(), NO_KEYWORDS).scheme == p.scheme
  {
    hide SplitHierarchy, SplitAuthority, Canonical, SplitUrl, PrintQuery, SchemeText, Avoids;
    var tail := PrintQuery(PartsOf(p));
    TextWithoutAuthority(lib, p);
    CanonicalSchemeAndPath(lib, p);
    SlashesRead(p.path, tail);
    SchemeReads(p.scheme, p.path + tail);
  }

  lemma SuffixNoDots(path: string, suffix: string)
    requires |suffix| <= |path| && suffix == path[|path| - |suffix|..]
    requires suffix == "" || suffix[0] == '/'
    requires NoDots(Split(path))
    ensures NoDots(Split(suffix))
  {
    SplitNone();
    if suffix != "" {
      hide Split, NoDots;
      var front := path[..|path| - |suffix|];
      assert path == front + "/" + suffix[1..];
      SplitAppend(front, suffix[1..]);
      assert suffix == "" + "/" + suffix[1..];
      SplitAppend("", suffix[1..]);
      NoDotsSplit(Split(front), Split(suffix[1..]));
      NoDotsSplit([""], Split(suffix[1..]));
    }
  }

  lemma SplitNone()
    ensures Split("") == [""] && NoDots([""])
  {
  }

  lemma NoDotsSplit(a: seq<string>, b: seq<string>)
    ensures NoDots(a + b) <==> NoDots(a) && NoDots(b)
  {
    assert forall i | 0 <= i < |b| :: (a + b)[|a| + i] == b[i];
    assert forall i | 0 <= i < |a| :: (a + b)[i] == a[i];
  }

  lemma SuffixKept(path: string, suffix: string, safe: char -> bool)
    requires |suffix| <= |path| && suffix == path[|path| - |suffix|..]
    requires AllKept(path, safe)
    ensures AllKept(suffix, safe)
  {
  }

  lemma SuffixFixed(path: string, suffix: string, hasAuthority: bool)
    requires |suffix| <= |path| && suffix == path[|path| - |suffix|..]
    requires suffix == "" || suffix[0] == '/'
    requires NoDots(Split(path)) && AllKept(path, IsPathSafe)
    ensures NormalPath(suffix, true, hasAuthority, IsPathSafe) == Some(suffix)
  {
    hide Split, NoDots, AllKept, NormalPath;
    SuffixNoDots(path, suffix);
    SuffixKept(path, suffix, IsPathSafe);
    NormalPathAgain(suffix, true, hasAuthority, IsPathSafe);
  }

  lemma NormalizeFields(lib: Library, raw: Raw)
    requires Normalize(lib, raw).Ok?
    ensures var p := Normalize(lib, raw).value;
            && p.scheme == Lower(raw.scheme)
            && NormalPath(raw.path, p.HasScheme(), p.HasAuthority(), IsPathSafe) == Some(p.path)
  {
  }

  lemma OtherScheme(lib: Library, raw: Raw, p: Url)
    requires raw.scheme != "" && p.scheme == ""
    ensures Normalize(lib, raw) != Ok(p)
  {
    assert |Lower(raw.scheme)| == |raw.scheme|;
  }

  lemma OtherPath(lib: Library, raw: Raw, p: Url)
    requires raw.scheme != "" && |raw.path| < |p.path|
    requires NormalPath(raw.path, true, true, IsPathSafe) == Some(raw.path)
    requires NormalPath(raw.path, true, false, IsPathSafe) == Some(raw.path)
    ensures Normalize(lib, raw) != Ok(p)
  {
    assert |Lower(raw.scheme)| == |raw.scheme|;
    if Normalize(lib, raw).Ok? {
      NormalizeFields(lib, raw);
    }
  }

  lemma AmbiguousNormalizesOther(lib: Library, p: Url)
    requires Canonical(lib, p) && Ambiguous(p)
    ensures Normalize(lib, RawOf(p.Text(), NO_KEYWORDS)) != Ok(p)
  {
    hide Normalize, RawOf, Split, HostForm, NormalPath;
    var raw := RawOf(p.Text(), NO_KEYWORDS);
    if !p.HasScheme() {
      SchemeLikePath(lib, p);
      OtherScheme(lib, raw, p);
    } else {
      AuthorityLikePath(lib, p);
      SuffixFixed(p.path, raw.path, true);
      SuffixFixed(p.path, raw.path, false);
      OtherPath(lib, raw, p);
    }
  }

  /** An ambiguous printed form reads back as another URL or not at all. */
  lemma AmbiguousReadsOther(lib: Library, p: Url)
    requires Canonical(lib, p) && Ambiguous(p)
    ensures Parse(lib, p.Text(), NO_KEYWORDS) != Ok(p)
  {
    ParseIsNormalize(lib, p.Text());
    AmbiguousNormalizesOther(lib, p);
  }

  // ----- main results -----

  /** Printing and parsing gives the same URL back exactly when the printed form is short enough and
      unambiguous, the host has no upper-case letter left and is an IPv4 address if it looks like one, and the
      port is not the scheme's default. */
  lemma RoundTrip(lib: Library, url: string)
    ensures Parse(lib, url, NO_KEYWORDS).Ok? ==>
              var p := Parse(lib, url, NO_KEYWORDS).value;
              Parse(lib, p.Text(), NO_KEYWORDS) == Ok(p) <==>
              && |p.Text()| <= MAX_URL_LENGTH && !Ambiguous(p)
              && StableHost(p.host) == p.host && (Ipv4Style(p.host) ==> lib.isIpv4(p.host))
              && (p.port.None? || p.port != DefaultPort(p.scheme))
  {
    ParseCanonical(lib, url);
    var parsed := Parse(lib, url, NO_KEYWORDS);
    if parsed.Ok? {
      CanonicalRoundTrip(lib, parsed.value);
    }
  }

  lemma CanonicalRoundTrip(lib: Library, p: Url)
    requires Canonical(lib, p)
    ensures Parse(lib, p.Text(), NO_KEYWORDS) == Ok(p) <==>
            && |p.Text()| <= MAX_URL_LENGTH && !Ambiguous(p)
            && StableHost(p.host) == p.host && Readable(lib, p.host)
            && (p.port.None? || p.port != DefaultPort(p.scheme))
  {
    hide Readable, Canonical, Normalize, RawOf, Ambiguous, StableHost;
    if Ambiguous(p) {
      AmbiguousReadsOther(lib, p);
    } else if |p.Text()| <= MAX_URL_LENGTH {
      Reparse(lib, p);
    }
  }

  lemma CanonicalHost(lib: Library, p: Url)
    requires Canonical(lib, p)
    ensures HostForm(lib, p.host)
  {
  }

  lemma SettledTextLength(lib: Library, p: Url)
    requires Canonical(lib, p)
    ensures |Settled(p).Text()| <= |p.Text()|
  {
    hide HostForm, PathForm, SchemeText, IntText;
    HostAgain(lib, p.host);
    var q := Settled(p);
    assert |q.Authority()| <= |p.Authority()|;
  }

  /** A default port, written under a scheme in capitals, is all the authority there is, before a path
      that starts with two slashes: dropping the port lets the path pass for an authority. */
  predicate PortIsAuthority(p: Url)
  {
    p.userinfo == "" && p.host == "" && p.port.Some? && p.port == DefaultPort(p.scheme) && StartsWith(p.path, "//")
  }

  lemma SettlingLosesAuthority(lib: Library, p: Url)
    requires Canonical(lib, p) && !Ambiguous(p)
    ensures Ambiguous(Settled(p)) <==> PortIsAuthority(p)
  {
    HostAgain(lib, p.host);
  }

  /** One more parse reaches a fixed point, except for a host that looks like an IPv4 address and is none, which
      is refused, and for a URL whose authority was just its default port. */
  lemma ReparseSettles(lib: Library, url: string)
    ensures Parse(lib, url, NO_KEYWORDS).Ok? ==>
              var p := Parse(lib, url, NO_KEYWORDS).value;
              |p.Text()| <= MAX_URL_LENGTH && !Ambiguous(p) ==>
                var again := Parse(lib, p.Text(), NO_KEYWORDS);
                if Ipv4Style(p.host) && !lib.isIpv4(p.host) then again == Err(InvalidURL)
                else
                  && again == Ok(Settled(p))
                  && (Parse(lib, again.value.Text(), NO_KEYWORDS) == again <==> !PortIsAuthority(p))
  {
    ParseCanonical(lib, url);
    var parsed := Parse(lib, url, NO_KEYWORDS);
    if parsed.Ok? && |parsed.value.Text()| <= MAX_URL_LENGTH && !Ambiguous(parsed.value) {
      CanonicalSettles(lib, parsed.value);
    }
  }

  lemma CanonicalSettles(lib: Library, p: Url)
    requires Canonical(lib, p) && !Ambiguous(p) && |p.Text()| <= MAX_URL_LENGTH
    ensures var again := Parse(lib, p.Text(), NO_KEYWORDS);
            if Readable(lib, p.host)
            then again == Ok(Settled(p))
                 && (Parse(lib, again.value.Text(), NO_KEYWORDS) == again <==> !PortIsAuthority(p))
            else again == Err(InvalidURL)
  {
    hide Canonical, Normalize, RawOf, Ambiguous, PortIsAuthority, Readable;
    HostAgain(lib, p.host) by {
      CanonicalHost(lib, p);
    }
    hide Settled;
    Reparse(lib, p);
    SettledCanonical(lib, p);
    SettledTextLength(lib, p);
    SettlingLosesAuthority(lib, p);
    if Ambiguous(Settled(p)) {
      AmbiguousReadsOther(lib, Settled(p));
    } else {
      Reparse(lib, Settled(p));
    }
  }
}
