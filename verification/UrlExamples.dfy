/** URLs for which printing and parsing again does not give the same URL: one for each condition of the round
    trip, and one that does not settle. */
module UrlExamples {
  import opened Prelude
  import opened Text
  import opened Quote
  import opened UrlPath
  import opened UrlParts
  import opened UrlPort
  import opened UrlParse
  import opened UrlRoundTrip
  import opened UrlCopy

  lemma ParseOf(lib: Library, url: string, parts: Parts)
    requires Separable(parts) && Print(parts) == url && Printable(url) && |url| <= MAX_URL_LENGTH
    ensures var a := SplitAuthority(OrEmpty(parts.authority));
            Parse(lib, url, NO_KEYWORDS)
            == Normalize(lib, Raw(OrEmpty(parts.scheme), OrEmpty(a.userinfo), a.host, a.port,
                                  parts.path, parts.query, parts.fragment))
  {
    hide Separable, Print, Printable, SplitUrl, SplitAuthority, Normalize;
    ParseIsNormalize(lib, url);
    SplitUrlOfPrint(parts);
  }

  /** A URL with nothing but a scheme, a host, a port and a path. */
  function Plain(scheme: string, host: string, port: Option<int>, path: string): Url
  {
    Url(scheme, "", host, port, path, None, None)
  }

  lemma NormalizePlain(lib: Library, scheme: string, host: string, port: string, path: string, p: Url)
    requires p == Plain(Lower(scheme), p.host, p.port, p.path)
    requires EncodeHost(lib, host) == Some(p.host) && NormalizePort(lib, port, scheme) == Some(p.port)
    requires NormalPath(path, p.HasScheme(), p.HasAuthority(), IsPathSafe) == Some(p.path)
    ensures Normalize(lib, Raw(scheme, "", host, port, path, None, None)) == Ok(p)
  {
    hide Lower, EncodeHost, NormalizePort, NormalPath;
    assert Quoted("", IsUserinfoSafe) == "";
  }

  lemma NoPath(hasScheme: bool, hasAuthority: bool)
    ensures NormalPath("", hasScheme, hasAuthority, IsPathSafe) == Some("")
  {
    NormalizedShape("");
  }

  lemma PlainHost(lib: Library, host: string)
    requires host != "" && forall i | 0 <= i < |host| :: 'a' <= host[i] <= 'z'
    ensures EncodeHost(lib, host) == Some(host) && Readable(lib, host) && StableHost(host) == host
  {
    hide Ipv4Style;
    NotAddress(host, 0);
    assert Lower(host) == host;
    QuotedFixed(host, IsHostSafe);
  }

  lemma NotAddress(s: string, i: nat)
    requires i < |s| && !IsDigit(s[i]) && s[i] != '.'
    ensures !Ipv4Style(s)
  {
    if Ipv4Style(s) {
      DigitRunsAlphabet(s, 4);
      assert false;
    }
  }

  /** What the scanners ask of such a URL's components. */
  predicate Scannable(url: string, scheme: string, host: string, port: string, path: string)
  {
    && url == scheme + ":" + ("//" + (host + PortSuffix(port)) + path)
    && SchemeText(scheme) && Printable(url) && |url| <= MAX_URL_LENGTH
    && Avoids(path, IsPathEnd) && (path == "" || path[0] == '/')
    && Avoids(host, IsAuthorityEnd) && Avoids(port, IsAuthorityEnd)
    && Avoids(host, IsHostEnd) && (host == "" || host[0] != '[') && Avoids(port, IsAt) && Avoids(port, IsClose)
  }

  /** A URL with scheme, host and port, by its components. */
  lemma HostParse(lib: Library, url: string, scheme: string, host: string, port: string, path: string, p: Url)
    requires Scannable(url, scheme, host, port, path)
    requires p == Plain(Lower(scheme), p.host, p.port, p.path)
    requires EncodeHost(lib, host) == Some(p.host) && NormalizePort(lib, port, scheme) == Some(p.port)
    requires NormalPath(path, p.HasScheme(), p.HasAuthority(), IsPathSafe) == Some(p.path)
    ensures Parse(lib, url, NO_KEYWORDS) == Ok(p)
  {
    hide Lower, EncodeHost, NormalizePort, NormalPath, SchemeText, SplitAuthority, Printable;
    var authority := host + PortSuffix(port);
    var parts := Parts(Some(scheme), Some(authority), path, None, None);
    assert Print(parts) == url by {
      assert path + (Prefixed("?", None) + Prefixed("#", None)) == path;
    }
    SplitAuthorityOf(None, host, port);
    ParseOf(lib, url, parts);
    NormalizePlain(lib, scheme, host, port, path, p);
  }

  lemma ExamplesScan()
    ensures Scannable("HTTPS://h:443", "HTTPS", "h", "443", "")
    ensures Scannable("http://a<b", "http", "a<b", "", "")
  {
  }

  lemma MoreExamplesScan()
    ensures Scannable("http://" + IDEOGRAPHIC, "http", IDEOGRAPHIC, "", "")
    ensures Scannable("HTTP://:80//a", "HTTP", "", "80", "//a")
    ensures Scannable("http://a", "http", "a", "", "")
  {
  }

  /** What comes of parsing such a URL again. */
  lemma HostReparse(lib: Library, url: string, p: Url)
    requires Parse(lib, url, NO_KEYWORDS) == Ok(p) && p == Plain(p.scheme, p.host, p.port, p.path)
    requires (p.host != "" || p.port.Some?) && |p.scheme| + |p.host| + |PortText(p.port)| + |p.path| <= 100
    ensures |p.Text()| <= MAX_URL_LENGTH && !Ambiguous(p)
    ensures Parse(lib, p.Text(), NO_KEYWORDS) == if Readable(lib, p.host) then Ok(Settled(p)) else Err(InvalidURL)
  {
    hide Parse, Canonical, Readable, Settled, PortText, SchemeColon;
    assert |HostText(p.host)| <= |p.host| + 2;
    assert |p.Authority()| <= |p.host| + 3 + |PortText(p.port)|;
    assert |p.Text()| <= |p.scheme| + 1 + 2 + |p.Authority()| + |p.path|;
    ParseCanonical(lib, url);
    Reparse(lib, p);
  }

  lemma Digits()
    ensures IntText(443) == "443" && IntText(80) == "80"
  {
    assert NatText(4) == "4" && NatText(8) == "8";
    assert NatText(44) == NatText(4) + "4";
    assert NatText(443) == NatText(44) + "3" && NatText(80) == NatText(8) + "0";
  }

  // ----- the port -----

  lemma CapitalSchemes()
    ensures Lower("HTTPS") == "https" && Lower("HTTP") == "http"
    ensures DefaultPort("HTTPS").None? && DefaultPort("HTTP").None?
    ensures SchemeText("HTTPS") && SchemeText("HTTP") && SchemeText("http")
  {
    assert "HTTPS"[0] != "https"[0] && "HTTP"[0] != "http"[0];
  }

  /** A default port under a capital scheme is kept once. */
  lemma CapitalSchemeKeepsPort(lib: Library)
    ensures var p := Plain("https", "h", Some(443), "");
            && Parse(lib, "HTTPS://h:443", NO_KEYWORDS) == Ok(p)
            && Parse(lib, p.Text(), NO_KEYWORDS) == Ok(p.(port := None))
  {
    hide Lower, SchemeText, IntText, ParseInt, EncodeHost, NormalPath, Ipv4Style, StableHost;
    hide Parse, Url.Text, Scannable;
    ExamplesScan();
    var p := Plain("https", "h", Some(443), "");
    CapitalSchemes();
    Digits();
    ParseIntText(lib, 443);
    PlainHost(lib, "h");
    NoPath(true, true);
    HostParse(lib, "HTTPS://h:443", "HTTPS", "h", "443", "", p);
    HostReparse(lib, "HTTPS://h:443", p);
  }

  // ----- the host -----

  lemma LessThan()
    ensures Quoted("a<b", IsHostSafe) == "a%3Cb" && Lower("a<b") == "a<b" && Lower("a%3Cb") == "a%3cb"
  {
    QuotedIsCharwise("a<b", IsHostSafe);
    PercentHex('<');
    assert "a<b"[1..] == "<b" && "<b"[1..] == "b" && "b"[1..] == "";
    assert Escaped("b", IsHostSafe) == "b" + Escaped("", IsHostSafe);
    assert Escaped("<b", IsHostSafe) == "%3C" + Escaped("b", IsHostSafe);
    assert Escaped("a<b", IsHostSafe) == "a" + Escaped("<b", IsHostSafe);
  }

  /** A name quoted with an upper-case hex digit is lowered when it is read again. */
  lemma QuotedHostIsLowered(lib: Library)
    ensures var p := Plain("http", "a%3Cb", None, "");
            && Parse(lib, "http://a<b", NO_KEYWORDS) == Ok(p)
            && Parse(lib, p.Text(), NO_KEYWORDS) == Ok(p.(host := "a%3cb"))
  {
    hide Lower, Quoted, EncodeHost, NormalPath, Ipv4Style, Parse, Scannable, Url.Text;
    ExamplesScan();
    var p := Plain("http", "a%3Cb", None, "");
    LessThan();
    NotAddress("a%3Cb", 0);
    LessThanHost(lib);
    NoPath(true, true);
    LowerHttp();
    HostParse(lib, "http://a<b", "http", "a<b", "", "", p);
    HostReparse(lib, "http://a<b", p);
  }

  lemma LessThanHost(lib: Library)
    ensures EncodeHost(lib, "a<b") == Some("a%3Cb")
  {
    hide Lower, Quoted, Ipv4Style;
    LessThan();
    NotAddress("a<b", 0);
  }

  lemma LowerHttp()
    ensures Lower("http") == "http" && Lower("a") == "a" && Lower("") == ""
  {
  }

  /** Four numbers joined by ideographic full stops. */
  const IDEOGRAPHIC := "999\U{3002}1\U{3002}1\U{3002}1"

  lemma LooksLikeAddress()
    ensures Ipv4Style("999.1.1.1") && !Ipv4Style(IDEOGRAPHIC)
  {
    hide DigitRuns;
    NotAddress(IDEOGRAPHIC, 3);
    AddressText();
    DigitRun("1");
    DigitRunsStep("1", "1", 1);
    DigitRunsStep("1", "1" + "." + "1", 2);
    DigitRunsStep("999", "1" + "." + ("1" + "." + "1"), 3);
  }

  lemma AddressText()
    ensures "999" + "." + ("1" + "." + ("1" + "." + "1")) == "999.1.1.1"
  {
  }

  /** IDNA encoding may return what looks like an IPv4 address that does not exist. The URL is accepted, and its
      printed form is not, though no other condition of the round trip fails. */
  lemma EncodedHostIsRefused(lib: Library)
    requires lib.idna(IDEOGRAPHIC) == Some("999.1.1.1") && !lib.isIpv4("999.1.1.1")
    ensures var p := Plain("http", "999.1.1.1", None, "");
            && Parse(lib, "http://" + IDEOGRAPHIC, NO_KEYWORDS) == Ok(p)
            && Parse(lib, p.Text(), NO_KEYWORDS) == Err(InvalidURL)
            && |p.Text()| <= MAX_URL_LENGTH && !Ambiguous(p) && StableHost(p.host) == p.host && p.port.None?
  {
    hide Lower, EncodeHost, NormalPath, Ipv4Style, Parse, Scannable, Url.Text;
    MoreExamplesScan();
    var p := Plain("http", "999.1.1.1", None, "");
    LooksLikeAddress();
    Ipv4Lower("999.1.1.1");
    IdeographicHost(lib);
    NoPath(true, true);
    LowerHttp();
    HostParse(lib, "http://" + IDEOGRAPHIC, "http", IDEOGRAPHIC, "", "", p);
    HostReparse(lib, "http://" + IDEOGRAPHIC, p);
  }

  lemma IdeographicHost(lib: Library)
    requires lib.idna(IDEOGRAPHIC) == Some("999.1.1.1")
    ensures EncodeHost(lib, IDEOGRAPHIC) == Some("999.1.1.1")
  {
    hide Lower, Quoted, Ipv4Style;
    LooksLikeAddress();
    assert !IsAscii(IDEOGRAPHIC[3]);
  }

  // ----- the length -----

  function Spaces(n: nat): (s: string)
    ensures |s| == n
  {
    if n == 0 then "" else " " + Spaces(n - 1)
  }

  lemma {:induction false} SpacesTriple(n: nat)
    ensures |Quoted(Spaces(n), IsPathSafe)| == 3 * n && Printable(Spaces(n)) && Avoids(Spaces(n), IsPathEnd)
  {
    if n > 0 {
      SpacesTriple(n - 1);
      PercentHex(' ');
      assert Spaces(n)[1..] == Spaces(n - 1);
    }
  }

  /** A path of spaces prints three times as long, which may be over the limit. */
  lemma PrintedTooLong(lib: Library, n: nat)
    requires 1 + n <= MAX_URL_LENGTH < 1 + 3 * n
    ensures var url := "/" + Spaces(n);
            && Parse(lib, url, NO_KEYWORDS).Ok?
            && Parse(lib, Parse(lib, url, NO_KEYWORDS).value.Text(), NO_KEYWORDS) == Err(InvalidURL)
  {
    hide Parse, Quoted;
    var url := "/" + Spaces(n);
    SpacesTriple(n);
    assert url[1..] == Spaces(n) && url[0] == '/' && url[1] == ' ';
    SlashQuoted(Spaces(n));
    SpacesRead(lib, url, Parts(None, None, url, None, None));
    TooLongRefused(lib, Plain("", "", None, Quoted(url, IsPathSafe)));
  }

  lemma SlashQuoted(s: string)
    ensures Quoted("/" + s, IsPathSafe) == "/" + Quoted(s, IsPathSafe)
  {
    assert ("/" + s)[1..] == s;
  }

  lemma TooLongRefused(lib: Library, p: Url)
    requires |p.path| > MAX_URL_LENGTH
    ensures Parse(lib, p.Text(), NO_KEYWORDS) == Err(InvalidURL)
  {
    assert |p.Text()| >= |p.path|;
    ParseIsNormalize(lib, p.Text());
  }

  lemma SpacesRead(lib: Library, url: string, parts: Parts)
    requires parts == Parts(None, None, url, None, None)
    requires |url| > 1 && url[0] == '/' && url[1] == ' ' && |url| <= MAX_URL_LENGTH
    requires Printable(url) && Avoids(url, IsPathEnd)
    ensures Parse(lib, url, NO_KEYWORDS) == Ok(Plain("", "", None, Quoted(url, IsPathSafe)))
  {
    hide Lower, Quoted, EncodeHost, NormalizePort, SplitAuthority, Printable;
    LowerHttp();
    NoAuthority(lib);
    assert Print(parts) == url;
    ParseOf(lib, url, parts);
    NormalizePlain(lib, "", "", "", url, Plain("", "", None, Quoted(url, IsPathSafe)));
  }

  // ----- ambiguous printed forms -----

  lemma NoAuthority(lib: Library)
    ensures SplitAuthority("") == AuthorityParts(None, "", "")
    ensures EncodeHost(lib, "") == Some("") && forall scheme :: NormalizePort(lib, "", scheme) == Some(None)
  {
  }

  /** An empty scheme is not printed, so the path is read as a scheme of its own. */
  lemma PathReadsAsScheme(lib: Library)
    ensures var p := Plain("", "", None, "a:b");
            && Parse(lib, ":a:b", NO_KEYWORDS) == Ok(p) && Ambiguous(p)
            && Parse(lib, p.Text(), NO_KEYWORDS) == Ok(Plain("a", "", None, "b"))
  {
    hide Parse;
    EmptySchemeParse(lib);
    OneLetterScheme(lib);
    var p := Plain("", "", None, "a:b");
    SchemeColonOf("a", "b");
    assert "a" + ":" + "b" == "a:b" == p.Text();
  }

  lemma PlainPaths()
    ensures NormalPath("a:b", false, false, IsPathSafe) == Some("a:b")
    ensures NormalPath("b", true, false, IsPathSafe) == Some("b")
  {
    QuotedFixed("a:b", IsPathSafe);
    QuotedFixed("b", IsPathSafe);
    SplitJoinOne("b");
    DotFreeFixed("b");
  }

  lemma EmptySchemeParse(lib: Library)
    ensures Parse(lib, ":a:b", NO_KEYWORDS) == Ok(Plain("", "", None, "a:b"))
  {
    hide Lower, NormalPath, EncodeHost, NormalizePort, SplitAuthority;
    var parts := Parts(Some(""), None, "a:b", None, None);
    LowerHttp();
    NoAuthority(lib);
    PlainPaths();
    assert Print(parts) == ":a:b" && "a:b"[0] != '/';
    ParseOf(lib, ":a:b", parts);
    NormalizePlain(lib, "", "", "", "a:b", Plain("", "", None, "a:b"));
  }

  lemma OneLetterScheme(lib: Library)
    ensures Parse(lib, "a:b", NO_KEYWORDS) == Ok(Plain("a", "", None, "b"))
  {
    hide Lower, NormalPath, EncodeHost, NormalizePort, SplitAuthority;
    var parts := Parts(Some("a"), None, "b", None, None);
    LowerHttp();
    NoAuthority(lib);
    PlainPaths();
    assert Print(parts) == "a:b" && "b"[0] != '/';
    ParseOf(lib, "a:b", parts);
    NormalizePlain(lib, "a", "", "", "b", Plain("a", "", None, "b"));
  }

  lemma DoubleSlashPath()
    ensures NormalPath("//a", true, true, IsPathSafe) == Some("//a")
  {
    SplitDot("//a");
    DotFreeFixed("//a");
    QuotedFixed("//a", IsPathSafe);
  }

  /** A default port that is all the authority there is gets dropped on the second parse, and on the third the
      path is an authority. */
  lemma PortWasAuthority(lib: Library)
    ensures var p := Plain("http", "", Some(80), "//a");
            && Parse(lib, "HTTP://:80//a", NO_KEYWORDS) == Ok(p) && PortIsAuthority(p)
            && Parse(lib, p.Text(), NO_KEYWORDS) == Ok(p.(port := None))
            && Parse(lib, p.(port := None).Text(), NO_KEYWORDS) == Ok(Plain("http", "a", None, ""))
  {
    hide Lower, SchemeText, IntText, ParseInt, EncodeHost, NormalPath, Ipv4Style, StableHost, Parse, Scannable;
    MoreExamplesScan();
    var p := Plain("http", "", Some(80), "//a");
    CapitalSchemes();
    Digits();
    ParseIntText(lib, 80);
    EmptyHost(lib);
    DoubleSlashPath();
    HostParse(lib, "HTTP://:80//a", "HTTP", "", "80", "//a", p);
    HostReparse(lib, "HTTP://:80//a", p);
    PlainHost(lib, "a");
    NoPath(true, true);
    LowerHttp();
    HostParse(lib, "http://a", "http", "a", "", "", Plain("http", "a", None, ""));
    assert p.(port := None).Text() == "http://a";
  }

  lemma EmptyHost(lib: Library)
    ensures EncodeHost(lib, "") == Some("") && StableHost("") == "" && !Ipv4Style("")
  {
    NoHost();
  }
}
