/** `urlparse`, `ParseResult.__str__` and `ParseResult.copy_with` of httpxp/_urlparse.py. */
module UrlParse {
  import opened Prelude
  import opened Text
  import opened Quote
  import opened UrlPath
  import opened UrlParts
  import opened UrlPort

  const MAX_URL_LENGTH := 65536

  predicate IsQuerySafe(c: char) { ' ' < c <= '~' && c != '"' && c != '#' && c != '<' && c != '>' }

  predicate IsFragmentSafe(c: char) { ' ' < c <= '~' && c != '"' && c != '<' && c != '>' && c != '`' }

  predicate IsPathSafe(c: char) { IsQuerySafe(c) && c != '?' && c != '`' && c != '{' && c != '}' }

  predicate IsUserinfoSafe(c: char)
  {
    && IsPathSafe(c) && c != '/' && c != ';' && c != '=' && c != '@'
    && !('[' <= c <= '^') && c != '|'
  }

  predicate IsSubDelim(c: char) { c == '!' || c == '$' || '&' <= c <= ',' || c == ';' || c == '=' }

  predicate IsHostSafe(c: char)
  {
    IsSubDelim(c) || c == '"' || c == '`' || c == '{' || c == '}' || c == '%' || c == '|' || c == '\\'
  }

  /** An IPv6 address is printed in brackets. */
  function HostText(host: string): string { if ':' in host then "[" + host + "]" else host }

  function PortText(port: Option<int>): string { if port.None? then "" else IntText(port.value) }

  datatype Url = Url(
    scheme: string, userinfo: string, host: string, port: Option<int>,
    path: string, query: Option<string>, fragment: Option<string>)
  {
    /** `ParseResult.authority` */
    function Authority(): string
    {
      var hostPort := HostText(host) + PortSuffix(PortText(port));
      if userinfo == "" then hostPort else userinfo + "@" + hostPort
    }

    /** `ParseResult.__str__` */
    function Text(): string
    {
      (if scheme == "" then "" else scheme + ":")
      + ((if Authority() == "" then "" else "//" + Authority())
         + (path
            + ((if query.None? then "" else "?" + query.value)
               + (if fragment.None? then "" else "#" + fragment.value))))
    }

    predicate HasScheme() { scheme != "" }

    predicate HasAuthority() { userinfo != "" || host != "" || port.Some? }
  }

  datatype UrlError = InvalidURL

  /** A keyword argument: not given, given as None, or given as text. */
  datatype Keyword = Absent | Null | Text(text: string)
  {
    /** `kwargs.get(key, matched)` */
    function Or(matched: Option<string>): Option<string>
    {
      match this
      case Absent => matched
      case Null => None
      case Text(s) => Some(s)
    }
  }

  /** The component keywords of `urlparse`; the combined ones are rewritten into these first. */
  datatype Keywords = Keywords(
    scheme: Keyword, authority: Keyword, userinfo: Keyword, host: Keyword, port: Keyword,
    path: Keyword, query: Keyword, fragment: Keyword)

  const NO_KEYWORDS := Keywords(Absent, Absent, Absent, Absent, Absent, Absent, Absent, Absent)

  predicate Printable(s: string) { forall i | 0 <= i < |s| :: !IsControl(s[i]) }

  /** An IPv6 "host" keyword is put in brackets. */
  function BracketHost(host: Keyword): Keyword
  {
    if host.Text? && ':' in host.text && !(StartsWith(host.text, "[") && host.text[|host.text| - 1] == ']')
    then Text("[" + host.text + "]") else host
  }

  /** Length, control characters and the component's own expression. */
  predicate Acceptable(k: Keyword, matches: string -> bool)
  {
    k.Text? ==> |k.text| <= MAX_URL_LENGTH && Printable(k.text) && matches(k.text)
  }

  predicate AcceptableKeywords(kw: Keywords)
  {
    && Acceptable(kw.scheme, SchemeText)
    && Acceptable(kw.authority, s => Avoids(s, IsAuthorityEnd))
    && Acceptable(kw.userinfo, s => Avoids(s, IsAt))
    && Acceptable(kw.host, s => Bracketed(s) || Avoids(s, IsColon))
    && Acceptable(kw.port, s => true)
    && Acceptable(kw.path, s => Avoids(s, IsPathEnd))
    && Acceptable(kw.query, s => Avoids(s, IsHash))
    && Acceptable(kw.fragment, s => true)
  }

  /** `encode_host`, None for InvalidURL. */
  function EncodeHost(lib: Library, host: string): Option<string>
  {
    if host == "" then Some("")
    else if Ipv4Style(host) then if lib.isIpv4(host) then Some(host) else None
    else if Bracketed(host) then
      var address := host[1..|host| - 1];
      if ':' in address && lib.isIpv6(address) then Some(address) else None
    else if forall i | 0 <= i < |host| :: IsAscii(host[i]) then Some(Quoted(Lower(host), IsHostSafe))
    else
      var encoded := lib.idna(host);
      if encoded.None? then None else Some(encoded.value)
  }

  function OrEmpty(s: Option<string>): string { if s.None? then "" else s.value }

  function QuotedOrNone(s: Option<string>, safe: char -> bool): Option<string>
  {
    if s.None? then None else Some(Quoted(s.value, safe))
  }

  /** The components before normalisation. */
  datatype Raw = Raw(
    scheme: string, userinfo: string, host: string, port: string,
    path: string, query: Option<string>, fragment: Option<string>)

  /** Keywords override what the expressions matched. */
  function RawOf(url: string, kw: Keywords): Raw
  {
    var parts := SplitUrl(url);
    var authority := SplitAuthority(OrEmpty(kw.authority.Or(parts.authority)));
    Raw(OrEmpty(kw.scheme.Or(parts.scheme)),
        OrEmpty(kw.userinfo.Or(authority.userinfo)),
        OrEmpty(kw.host.Or(Some(authority.host))),
        OrEmpty(kw.port.Or(Some(authority.port))),
        OrEmpty(kw.path.Or(Some(parts.path))),
        kw.query.Or(parts.query),
        kw.fragment.Or(parts.fragment))
  }

  /** Each component in its canonical form. */
  function Normalize(lib: Library, raw: Raw): Result<Url, UrlError>
  {
    var host := EncodeHost(lib, raw.host);
    var port := NormalizePort(lib, raw.port, raw.scheme);
    if host.None? || port.None? then Err(InvalidURL)
    else
      var url := Url(Lower(raw.scheme), Quoted(raw.userinfo, IsUserinfoSafe), host.value, port.value, "",
                     QuotedOrNone(raw.query, IsQuerySafe), QuotedOrNone(raw.fragment, IsFragmentSafe));
      var path := NormalPath(raw.path, url.HasScheme(), url.HasAuthority(), IsPathSafe);
      if path.None? then Err(InvalidURL) else Ok(url.(path := path.value))
  }

  /** `urlparse(url, **kwargs)` */
  function Parse(lib: Library, url: string, kw: Keywords): Result<Url, UrlError>
  {
    var kw' := kw.(host := BracketHost(kw.host));
    if |url| > MAX_URL_LENGTH || !Printable(url) || !AcceptableKeywords(kw') then Err(InvalidURL)
    else Normalize(lib, RawOf(url, kw'))
  }

  /** `ParseResult.copy_with`: the five printed components, overridden by what the caller gives. */
  function CopyWith(lib: Library, url: Url, kw: Keywords): Result<Url, UrlError>
  {
    if kw == NO_KEYWORDS then Ok(url)
    else Parse(lib, "", kw.(scheme := Override(Text(url.scheme), kw.scheme),
                            authority := Override(Text(url.Authority()), kw.authority),
                            path := Override(Text(url.path), kw.path),
                            query := Override(KeywordOf(url.query), kw.query),
                            fragment := Override(KeywordOf(url.fragment), kw.fragment)))
  }

  function KeywordOf(s: Option<string>): Keyword { if s.None? then Null else Text(s.value) }

  function Override(default: Keyword, given: Keyword): Keyword { if given.Absent? then default else given }
}
