/** `ParseResult.copy_with`, host stability, which texts are accepted, and what the parsed components mean. */
module UrlCopy {
  import opened Prelude
  import opened Text
  import opened Quote
  import opened UrlPath
  import opened UrlParts
  import opened UrlPort
  import opened UrlParse
  import opened UrlRoundTrip

  // ----- copy_with -----

  /** A component that copy_with passes on is longer than the limit. */
  predicate TooLong(p: Url, kw: Keywords)
  {
    || (kw.scheme.Absent? && |p.scheme| > MAX_URL_LENGTH)
    || (kw.authority.Absent? && |p.Authority()| > MAX_URL_LENGTH)
    || (kw.path.Absent? && |p.path| > MAX_URL_LENGTH)
    || (kw.query.Absent? && |OrEmpty(p.query)| > MAX_URL_LENGTH)
    || (kw.fragment.Absent? && |OrEmpty(p.fragment)| > MAX_URL_LENGTH)
  }

  /** The keywords copy_with calls the parser with. */
  function Completed(p: Url, kw: Keywords): Keywords
  {
    kw.(scheme := Override(Text(p.scheme), kw.scheme),
        authority := Override(Text(p.Authority()), kw.authority),
        path := Override(Text(p.path), kw.path),
        query := Override(KeywordOf(p.query), kw.query),
        fragment := Override(KeywordOf(p.fragment), kw.fragment))
  }

  lemma AcceptedAgain(lib: Library, p: Url, kw: Keywords)
    requires Canonical(lib, p)
    ensures AcceptableKeywords(Completed(p, kw)) <==> AcceptableKeywords(kw) && !TooLong(p, kw)
  {
    hide HostForm, NoDots, ValidPath, HostText;
    AuthorityChars(lib, p);
    assert Printable(p.path) && Avoids(p.path, IsPathEnd) && Printable(p.scheme);
    assert Printable(OrEmpty(p.query)) && Avoids(OrEmpty(p.query), IsHash) && Printable(OrEmpty(p.fragment));
  }

  lemma SplitNothing()
    ensures SplitUrl("") == Parts(None, None, "", None, None)
  {
    SplitUrlOfPrint(Parts(None, None, "", None, None));
  }

  // ----- each component after copy_with -----

  function CopiedScheme(p: Url, kw: Keywords): string
  {
    if kw.scheme.Absent? then p.scheme else OrEmpty(kw.scheme.Or(None))
  }

  function CopiedUserinfo(p: Url, kw: Keywords): string
  {
    if kw.authority.Absent? && kw.userinfo.Absent? then p.userinfo
    else Quoted(OrEmpty(kw.userinfo.Or(SplitAuthority(OrEmpty(kw.authority.Or(None))).userinfo)), IsUserinfoSafe)
  }

  /** The host is read again even if it is not given. */
  function CopiedHost(lib: Library, p: Url, kw: Keywords): Option<string>
  {
    if kw.authority.Absent? && kw.host.Absent? then if Readable(lib, p.host) then Some(StableHost(p.host)) else None
    else EncodeHost(lib, OrEmpty(kw.host.Or(Some(SplitAuthority(OrEmpty(kw.authority.Or(None))).host))))
  }

  /** So is the port, against the scheme the copy is given. */
  function CopiedPort(lib: Library, p: Url, kw: Keywords): Option<Option<int>>
  {
    var scheme := CopiedScheme(p, kw);
    if kw.authority.Absent? && kw.port.Absent? then Some(NormalPort(p.port, scheme))
    else NormalizePort(lib, OrEmpty(kw.port.Or(Some(SplitAuthority(OrEmpty(kw.authority.Or(None))).port))), scheme)
  }

  /** A query or fragment after copy_with: quoted if given, otherwise as it was. */
  function Replaced(was: Option<string>, given: Keyword, safe: char -> bool): Option<string>
  {
    if given.Absent? then was else QuotedOrNone(given.Or(None), safe)
  }

  /** The whole copy; its path has to fit the scheme and authority it now has. */
  function Copied(lib: Library, p: Url, kw: Keywords): Result<Url, UrlError>
  {
    var host, port := CopiedHost(lib, p, kw), CopiedPort(lib, p, kw);
    if host.None? || port.None? then Err(InvalidURL)
    else
      var url := Url(Lower(CopiedScheme(p, kw)), CopiedUserinfo(p, kw), host.value, port.value, "",
                     Replaced(p.query, kw.query, IsQuerySafe), Replaced(p.fragment, kw.fragment, IsFragmentSafe));
      var path := NormalPath(if kw.path.Absent? then p.path else OrEmpty(kw.path.Or(None)),
                             url.HasScheme(), url.HasAuthority(), IsPathSafe);
      if path.None? then Err(InvalidURL) else Ok(url.(path := path.value))
  }

  /** The components copy_with hands to the normaliser. */
  lemma RawOfCopy(lib: Library, p: Url, kw: Keywords)
    requires Canonical(lib, p)
    ensures var own := AuthorityParts(if p.userinfo == "" then None else Some(p.userinfo),
                                      HostText(p.host), PortText(p.port));
            var authority := if kw.authority.Absent? then own else SplitAuthority(OrEmpty(kw.authority.Or(None)));
            RawOf("", Completed(p, kw))
            == Raw(CopiedScheme(p, kw),
                   OrEmpty(kw.userinfo.Or(authority.userinfo)),
                   OrEmpty(kw.host.Or(Some(authority.host))),
                   OrEmpty(kw.port.Or(Some(authority.port))),
                   if kw.path.Absent? then p.path else OrEmpty(kw.path.Or(None)),
                   Override(KeywordOf(p.query), kw.query).Or(None),
                   Override(KeywordOf(p.fragment), kw.fragment).Or(None))
  {
    hide SplitUrl, SplitAuthority, Canonical, HostText, PortText;
    SplitNothing();
    AuthorityReads(lib, p);
  }

  lemma ReplacedAgain(s: Option<string>, given: Keyword, safe: char -> bool)
    requires safe('%') && OptionKept(s, safe)
    ensures QuotedOrNone(Override(KeywordOf(s), given).Or(None), safe) == Replaced(s, given, safe)
  {
    QuotedOptionFixed(s, safe);
  }

  lemma CanonicalKept(lib: Library, p: Url)
    requires Canonical(lib, p)
    ensures AllKept(p.userinfo, IsUserinfoSafe) && OptionKept(p.query, IsQuerySafe)
    ensures OptionKept(p.fragment, IsFragmentSafe)
  {
  }

  lemma CopyUserinfo(lib: Library, p: Url, kw: Keywords)
    requires Canonical(lib, p)
    ensures Quoted(RawOf("", Completed(p, kw)).userinfo, IsUserinfoSafe) == CopiedUserinfo(p, kw)
  {
    hide RawOf, Quoted, Canonical, AllKept, SplitAuthority;
    RawOfCopy(lib, p, kw);
    CanonicalKept(lib, p);
    QuotedFixed(p.userinfo, IsUserinfoSafe);
  }

  lemma CopyHost(lib: Library, p: Url, kw: Keywords)
    requires Canonical(lib, p)
    ensures EncodeHost(lib, RawOf("", Completed(p, kw)).host) == CopiedHost(lib, p, kw)
  {
    hide RawOf, EncodeHost, Canonical, HostText, StableHost, Readable, HostForm, SplitAuthority;
    RawOfCopy(lib, p, kw);
    CanonicalHost(lib, p);
    HostAgain(lib, p.host);
  }

  lemma CopyPort(lib: Library, p: Url, kw: Keywords)
    requires Canonical(lib, p)
    ensures NormalizePort(lib, RawOf("", Completed(p, kw)).port, CopiedScheme(p, kw)) == CopiedPort(lib, p, kw)
  {
    hide RawOf, NormalizePort, Canonical, PortText, SplitAuthority;
    RawOfCopy(lib, p, kw);
    PortAgain(lib, p.port, CopiedScheme(p, kw));
  }

  lemma CopyNormalizes(lib: Library, p: Url, kw: Keywords)
    requires Canonical(lib, p)
    ensures Normalize(lib, RawOf("", Completed(p, kw))) == Copied(lib, p, kw)
  {
    hide RawOf, Quoted, Lower, EncodeHost, NormalizePort, NormalPath, Canonical, Completed, Replaced;
    hide AllKept, OptionKept, CopiedHost, CopiedPort, CopiedUserinfo, CopiedScheme, SplitAuthority, QuotedOrNone;
    RawOfCopy(lib, p, kw);
    CanonicalKept(lib, p);
    CopyUserinfo(lib, p, kw);
    CopyHost(lib, p, kw);
    CopyPort(lib, p, kw);
    ReplacedAgain(p.query, kw.query, IsQuerySafe);
    ReplacedAgain(p.fragment, kw.fragment, IsFragmentSafe);
  }

  /** copy_with, for any component keywords and however ambiguous the printed form of the URL is: it fails when a
      given component is not acceptable or one that is passed on is too long, and otherwise every component is
      the one given or the one the URL had, which is neither quoted again nor split differently. */
  lemma CopyWithAnything(lib: Library, p: Url, kw: Keywords)
    requires Canonical(lib, p) && kw != NO_KEYWORDS
    ensures var given := kw.(host := BracketHost(kw.host));
            CopyWith(lib, p, kw) ==
            if !AcceptableKeywords(given) || TooLong(p, given) then Err(InvalidURL) else Copied(lib, p, given)
  {
    hide Canonical, AcceptableKeywords, TooLong, Copied, Normalize, RawOf, BracketHost;
    var given := kw.(host := BracketHost(kw.host));
    assert Completed(p, kw).(host := BracketHost(kw.host)) == Completed(p, given);
    assert Printable("");
    AcceptedAgain(lib, p, given);
    CopyNormalizes(lib, p, given);
  }

  /** Only the path, the query or the fragment is replaced. */
  predicate TailKeywords(kw: Keywords)
  {
    && kw.scheme.Absent? && kw.authority.Absent? && kw.userinfo.Absent? && kw.host.Absent? && kw.port.Absent?
    && kw != NO_KEYWORDS
  }

  /** What the replaced path becomes; None when it does not fit the rest of the URL. */
  function ReplacedPath(p: Url, given: Keyword): Option<string>
  {
    if given.Absent? then Some(p.path)
    else NormalPath(OrEmpty(given.Or(None)), p.HasScheme(), p.HasAuthority(), IsPathSafe)
  }

  /** Replacing the path, query or fragment: exactly the given components change, except that the host and port
      settle as they do on any re-parse. */
  lemma CopyWithChangesOnlyTheGiven(lib: Library, p: Url, kw: Keywords)
    requires Canonical(lib, p) && TailKeywords(kw)
    ensures var path := ReplacedPath(Settled(p), kw.path);
            CopyWith(lib, p, kw) ==
            if !AcceptableKeywords(kw) || TooLong(p, kw) || !Readable(lib, p.host) || path.None? then Err(InvalidURL)
            else Ok(Settled(p).(path := path.value,
                                query := Replaced(p.query, kw.query, IsQuerySafe),
                                fragment := Replaced(p.fragment, kw.fragment, IsFragmentSafe)))
  {
    hide AcceptableKeywords, TooLong, Replaced, NormalPath, Quoted, CopyWith, StableHost, Readable;
    hide HostForm, PathForm, NormalPort;
    CopyWithAnything(lib, p, kw);
    assert BracketHost(kw.host) == kw.host;
    PathAgain(lib, p);
  }

  // ----- which hosts are settled -----

  /** Characters a registered name can hold before it is quoted, and that quoting turns into letters. */
  predicate IsLettered(c: char) { c == '<' || c == '>' || c == '[' || c == ']' || c == '^' }

  /** Characters a lowered host can hold when it is quoted as a registered name. */
  predicate IsHostInput(c: char)
  {
    && ' ' <= c <= '~' && LowerChar(c) == c
    && c != '/' && c != '?' && c != '#' && c != '@' && c != ':'
  }

  lemma PercentHex(c: char)
    requires IsAscii(c)
    ensures Percent(c) == ['%', HexDigit(c as int / 16), HexDigit(c as int % 16)]
  {
    var n := c as int;
    assert Utf8(c) == [n];
    assert HexBytes([n]) == ['%', HexDigit(n / 16), HexDigit(n % 16)] + HexBytes([]);
  }

  lemma EscapeLowerChar(c: char)
    requires IsHostInput(c)
    ensures Lower(Escape(c, IsHostSafe)) == Escape(c, IsHostSafe) <==> !IsLettered(c)
  {
    if Kept(c, IsHostSafe) {
      assert !IsLettered(c);
    } else {
      PercentHex(c);
      assert c == ' ' || IsLettered(c);
      assert IsLettered(c) ==> Lower(Percent(c))[2] != Percent(c)[2];
    }
  }

  lemma LowerConcat(a: string, b: string)
    ensures Lower(a + b) == a + b <==> Lower(a) == a && Lower(b) == b
  {
    assert Lower(a + b) == Lower(a) + Lower(b);
    assert Lower(a + b)[..|a|] == Lower(a) && Lower(a + b)[|a|..] == Lower(b);
    assert (a + b)[..|a|] == a && (a + b)[|a|..] == b;
  }

  /** Quoting a lowered name leaves no upper-case letter exactly when there was nothing to turn into hex
      digits A to F. */
  lemma {:induction false} EscapedLower(s: string)
    requires forall i | 0 <= i < |s| :: IsHostInput(s[i])
    ensures Lower(Escaped(s, IsHostSafe)) == Escaped(s, IsHostSafe) <==> Avoids(s, IsLettered)
  {
    if s != "" {
      EscapedLower(s[1..]);
      LowerConcat(Escape(s[0], IsHostSafe), Escaped(s[1..], IsHostSafe));
      EscapeLowerChar(s[0]);
      assert Avoids(s, IsLettered) <==> !IsLettered(s[0]) && Avoids(s[1..], IsLettered);
    }
  }

  lemma LowerLettered(s: string)
    ensures Avoids(Lower(s), IsLettered) <==> Avoids(s, IsLettered)
  {
    assert forall c :: IsLettered(LowerChar(c)) <==> IsLettered(c);
  }

  lemma QuotedNoColon(s: string)
    ensures ':' !in Quoted(s, IsHostSafe)
  {
    QuotedAlphabet(s, IsHostSafe);
  }

  /** The host condition of the round trip, on the host as it was written. */
  lemma HostStable(lib: Library, host: string)
    requires host != "" && !Ipv4Style(host) && !Bracketed(host)
    requires forall i | 0 <= i < |host| :: IsHostInput(LowerChar(host[i])) && IsAscii(host[i])
    ensures var h := EncodeHost(lib, host);
            h.Some? && (StableHost(h.value) == h.value <==> Avoids(host, IsLettered))
  {
    QuotedIsCharwise(Lower(host), IsHostSafe);
    EscapedLower(Lower(host));
    LowerLettered(host);
    QuotedNoColon(Lower(host));
  }

  // ----- meaning -----

  /** Each parsed component stands for the bytes of the component the text was split into. */
  lemma ParseKeepsMeaning(lib: Library, url: string)
    ensures Parse(lib, url, NO_KEYWORDS).Ok? ==>
            var p := Parse(lib, url, NO_KEYWORDS).value;
            var parts := SplitUrl(url);
            var authority := SplitAuthority(OrEmpty(parts.authority));
            && p.scheme == Lower(OrEmpty(parts.scheme))
            && Decoded(p.userinfo) == Decoded(OrEmpty(authority.userinfo))
            && (p.query.None? <==> parts.query.None?)
            && Decoded(OrEmpty(p.query)) == Decoded(OrEmpty(parts.query))
            && (p.fragment.None? <==> parts.fragment.None?)
            && Decoded(OrEmpty(p.fragment)) == Decoded(OrEmpty(parts.fragment))
            && Decoded(p.path)
               == Decoded(if p.HasScheme() || p.HasAuthority() then Normalized(parts.path) else parts.path)
  {
    ParseIsNormalize(lib, url);
    var raw := RawOf(url, NO_KEYWORDS);
    QuotePreservesMeaning(raw.userinfo, IsUserinfoSafe);
    QuotePreservesMeaning(OrEmpty(raw.query), IsQuerySafe);
    QuotePreservesMeaning(OrEmpty(raw.fragment), IsFragmentSafe);
    QuotePreservesMeaning(Normalized(raw.path), IsPathSafe);
    QuotePreservesMeaning(raw.path, IsPathSafe);
  }

  /** The port is the number written, unless that is the default of the scheme as written, capitals included. */
  lemma ParseKeepsPort(lib: Library, url: string)
    ensures Parse(lib, url, NO_KEYWORDS).Ok? ==>
              var p := Parse(lib, url, NO_KEYWORDS).value;
              var parts := SplitUrl(url);
              var port := SplitAuthority(OrEmpty(parts.authority)).port;
              && (if port == "" then p.port.None?
                  else ParseInt(lib, port).Some?
                       && (p.port == ParseInt(lib, port)
                           || (p.port.None? && ParseInt(lib, port) == DefaultPort(OrEmpty(parts.scheme)))))
              && (p.port.Some? ==> p.port != DefaultPort(OrEmpty(parts.scheme)))
  {
    hide Quoted, Lower, SplitUrl, SplitAuthority, ParseInt, EncodeHost, NormalPath, DefaultPort;
    ParseIsNormalize(lib, url);
  }

  /** The host is the address between its brackets, an IPv4 address as written, stands for the lowered host it was
      written as, or is what IDNA encoding made of it. */
  lemma ParseKeepsHost(lib: Library, url: string)
    ensures Parse(lib, url, NO_KEYWORDS).Ok? ==>
              var p := Parse(lib, url, NO_KEYWORDS).value;
              var host := SplitAuthority(OrEmpty(SplitUrl(url).authority)).host;
              if Bracketed(host) then host == "[" + p.host + "]" && ':' in p.host && lib.isIpv6(p.host)
              else if Ipv4Style(host) then p.host == host && lib.isIpv4(host)
              else if forall i | 0 <= i < |host| :: IsAscii(host[i]) then Decoded(p.host) == Decoded(Lower(host))
              else lib.idna(host) == Some(p.host)
  {
    hide Quoted, Lower, SplitUrl, SplitAuthority, EncodeHost, Ipv4Style, Decoded, NormalPath, NormalizePort;
    ParseIsNormalize(lib, url);
    EncodeKeepsHost(lib, RawOf(url, NO_KEYWORDS).host);
  }

  lemma EncodeKeepsHost(lib: Library, host: string)
    ensures EncodeHost(lib, host).Some? ==>
              var h := EncodeHost(lib, host).value;
              if Bracketed(host) then host == "[" + h + "]" && ':' in h && lib.isIpv6(h)
              else if Ipv4Style(host) then h == host && lib.isIpv4(host)
              else if forall i | 0 <= i < |host| :: IsAscii(host[i]) then Decoded(h) == Decoded(Lower(host))
              else lib.idna(host) == Some(h)
  {
    hide Quoted, Lower, Ipv4Style, Decoded;
    QuotePreservesMeaning(Lower(host), IsHostSafe);
    NoHost();
    if Bracketed(host) {
      BracketedNotIpv4(host);
      assert host == "[" + host[1..|host| - 1] + "]";
    }
  }

  /** Hosts that can be encoded. */
  predicate HostAccepted(lib: Library, host: string)
  {
    || host == ""
    || (Ipv4Style(host) && lib.isIpv4(host))
    || (Bracketed(host) && ':' in host && lib.isIpv6(host[1..|host| - 1]))
    || (!Ipv4Style(host) && !Bracketed(host)
        && ((forall i | 0 <= i < |host| :: IsAscii(host[i])) || lib.idna(host).Some?))
  }

  lemma HostAcceptedIff(lib: Library, host: string)
    ensures EncodeHost(lib, host).Some? <==> HostAccepted(lib, host)
  {
    if Bracketed(host) {
      BracketedNotIpv4(host);
      var address := host[1..|host| - 1];
      assert host == "[" + address + "]";
    }
  }

  /** Exactly which texts are accepted. A path can only be refused where nothing stands before it. */
  lemma ParseAccepts(lib: Library, url: string)
    ensures var parts := SplitUrl(url);
            var authority := SplitAuthority(OrEmpty(parts.authority));
            var bare := OrEmpty(parts.scheme) == "" && OrEmpty(authority.userinfo) == ""
                        && authority.host == "" && authority.port == "";
            Parse(lib, url, NO_KEYWORDS).Ok? <==>
            && |url| <= MAX_URL_LENGTH && Printable(url)
            && HostAccepted(lib, authority.host)
            && (authority.port == "" || ParseInt(lib, authority.port).Some?)
            && (bare ==> !StartsWith(parts.path, "//") && !StartsWith(parts.path, ":"))
  {
    hide Quoted, Lower, SplitUrl, SplitAuthority, ParseInt, HostAccepted, EncodeHost, Print, Normalized, SchemeColon;
    ParseIsNormalize(lib, url);
    PrintOfSplitUrl(url);
    var raw := RawOf(url, NO_KEYWORDS);
    HostAcceptedIff(lib, raw.host);
    NoAuthorityText();
    assert |Lower(raw.scheme)| == |raw.scheme|;
    QuotedNonempty(raw.userinfo, IsUserinfoSafe);
    if EncodeHost(lib, raw.host).Some? {
      HostEmpty(lib, raw.host);
    }
  }

  lemma NoAuthorityText()
    ensures SplitAuthority("") == AuthorityParts(None, "", "")
  {
  }

  lemma HostEmpty(lib: Library, host: string)
    requires EncodeHost(lib, host).Some?
    ensures EncodeHost(lib, host).value == "" <==> host == ""
  {
    hide Quoted, Ipv4Style;
    assert |Lower(host)| == |host|;
    QuotedNonempty(Lower(host), IsHostSafe);
  }

  lemma NoHost()
    ensures Lower("") == "" && !Ipv4Style("")
  {
  }

  lemma BracketedNotIpv4(host: string)
    requires Bracketed(host)
    ensures !Ipv4Style(host)
  {
    if Ipv4Style(host) {
      Ipv4Lower(host);
    }
  }
}
