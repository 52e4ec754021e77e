/** The two regular expressions of httpxp/_urlparse.py as deterministic scanners. */
module UrlParts {
  import opened Prelude
  import opened Text

  /** The five groups of URL_REGEX; None where an optional group does not take part in the match. */
  datatype Parts = Parts(
    scheme: Option<string>, authority: Option<string>,
    path: string, query: Option<string>, fragment: Option<string>)

  /** `[a-zA-Z0-9+.-]` */
  predicate IsSchemeChar(c: char) { IsAlpha(c) || IsDigit(c) || c == '+' || c == '.' || c == '-' }

  /** `([a-zA-Z][a-zA-Z0-9+.-]*)?` */
  predicate SchemeText(s: string)
  {
    && (s != "" ==> IsAlpha(s[0]))
    && forall i | 0 <= i < |s| :: IsSchemeChar(s[i])
  }

  /** Where the colon of a leading scheme stands, if the text has one; the scheme may be empty. */
  function SchemeColon(s: string): (r: Option<nat>)
    ensures r.Some? ==> r.value < |s|
  {
    var k := Span(s, IsSchemeChar);
    if k < |s| && s[k] == ':' && (k == 0 || IsAlpha(s[0])) then Some(k) else None
  }

  predicate IsHash(c: char) { c == '#' }

  predicate IsPathEnd(c: char) { c == '?' || c == '#' }

  predicate IsAuthorityEnd(c: char) { c == '/' || c == '?' || c == '#' }

  predicate IsAt(c: char) { c == '@' }

  predicate IsClose(c: char) { c == ']' }

  predicate IsColon(c: char) { c == ':' }

  predicate IsHostEnd(c: char) { c == ':' || c == '@' }

  /** Query and fragment. */
  function SplitQuery(rest: string): (Option<string>, Option<string>)
  {
    if rest == "" then (None, None)
    else if rest[0] == '#' then (None, Some(rest[1..]))
    else
      var q := SpanNot(rest[1..], IsHash);
      var last := rest[1 + q..];
      (Some(rest[1..1 + q]), if last == "" then None else Some(last[1..]))
  }

  /** Path, query and fragment. */
  function SplitTail(s: string): (r: Parts)
    ensures r.scheme.None? && r.authority.None?
  {
    var k := SpanNot(s, IsPathEnd);
    var (query, fragment) := SplitQuery(s[k..]);
    Parts(None, None, s[..k], query, fragment)
  }

  /** The authority after a double slash, then the tail. */
  function SplitHierarchy(s: string): (r: Parts)
    ensures r.scheme.None?
  {
    if StartsWith(s, "//") then
      var k := SpanNot(s[2..], IsAuthorityEnd);
      SplitTail(s[2 + k..]).(authority := Some(s[2..2 + k]))
    else SplitTail(s)
  }

  /** `URL_REGEX.match(url).groupdict()` */
  function SplitUrl(s: string): Parts
  {
    var colon := SchemeColon(s);
    if colon.Some? then SplitHierarchy(s[colon.value + 1..]).(scheme := Some(s[..colon.value]))
    else SplitHierarchy(s)
  }

  function Prefixed(mark: string, text: Option<string>): string
  {
    if text.None? then "" else mark + text.value
  }

  function PrintQuery(p: Parts): string { Prefixed("?", p.query) + Prefixed("#", p.fragment) }

  function PrintTail(p: Parts): string { p.path + PrintQuery(p) }

  function PrintHierarchy(p: Parts): string { Prefixed("//", p.authority) + PrintTail(p) }

  /** The parts written one after the other, each with its delimiter. */
  function Print(p: Parts): string
  {
    (if p.scheme.None? then "" else p.scheme.value + ":") + PrintHierarchy(p)
  }

  /** Path, query and fragment contain none of the delimiters that end them. */
  predicate TailParts(p: Parts)
  {
    Avoids(p.path, IsPathEnd) && (p.query.Some? ==> Avoids(p.query.value, IsHash))
  }

  /** The authority, or the path without one, cannot be mistaken for the other. */
  predicate HierarchyParts(p: Parts)
  {
    && TailParts(p)
    && (p.authority.Some? ==> Avoids(p.authority.value, IsAuthorityEnd) && (p.path == "" || p.path[0] == '/'))
    && (p.authority.None? ==> !StartsWith(p.path, "//"))
  }

  /** The parts that reading produces, and that reading recovers from their printed form. */
  predicate Separable(p: Parts)
  {
    && HierarchyParts(p)
    && (p.scheme.Some? ==> SchemeText(p.scheme.value))
    && (p.scheme.None? && p.authority.None? ==> SchemeColon(p.path).None?)
  }

  lemma SplitQueryOf(p: Parts)
    requires TailParts(p)
    ensures SplitQuery(PrintQuery(p)) == (p.query, p.fragment)
    ensures PrintQuery(p) == "" || IsPathEnd(PrintQuery(p)[0])
  {
    hide SpanNot;
    var rest, fragment := PrintQuery(p), Prefixed("#", p.fragment);
    assert p.fragment.Some? ==> fragment[1..] == p.fragment.value;
    if p.query.Some? {
      var q := p.query.value;
      assert rest[1..] == q + fragment;
      SpanNotOf(q, fragment, IsHash);
      assert rest[1..1 + |q|] == q && rest[1 + |q|..] == fragment;
    } else {
      assert rest == fragment;
    }
  }

  lemma SplitTailOf(p: Parts)
    requires TailParts(p)
    ensures SplitTail(PrintTail(p)) == p.(scheme := None, authority := None)
  {
    var s, rest := PrintTail(p), PrintQuery(p);
    SplitQueryOf(p);
    SpanNotOf(p.path, rest, IsPathEnd);
    assert s[..|p.path|] == p.path && s[|p.path|..] == rest;
  }

  lemma PrintQueryOf(rest: string, p: Parts)
    requires rest == "" || IsPathEnd(rest[0])
    requires (p.query, p.fragment) == SplitQuery(rest)
    ensures PrintQuery(p) == rest
    ensures p.query.Some? ==> Avoids(p.query.value, IsHash)
  {
    if rest == "" {
    } else if rest[0] == '#' {
      assert rest == "#" + rest[1..];
    } else {
      var q := SpanNot(rest[1..], IsHash);
      var last := rest[1 + q..];
      assert rest == "?" + rest[1..1 + q] + last;
      assert last != "" ==> last == "#" + last[1..];
    }
  }

  lemma PrintTailOf(s: string)
    ensures PrintTail(SplitTail(s)) == s && TailParts(SplitTail(s))
  {
    hide SplitQuery, PrintQuery, SpanNot;
    var k := SpanNot(s, IsPathEnd);
    PrintQueryOf(s[k..], SplitTail(s));
    assert s == s[..k] + s[k..];
  }

  lemma NotSlashes(path: string, rest: string)
    requires rest == "" || IsPathEnd(rest[0])
    ensures StartsWith(path + rest, "//") <==> StartsWith(path, "//")
  {
    var s := path + rest;
    assert |path| < |s| ==> s[|path|] == rest[0];
    assert |path| >= 2 ==> s[0] == path[0] && s[1] == path[1];
  }

  lemma SplitHierarchyOf(p: Parts)
    requires HierarchyParts(p)
    ensures SplitHierarchy(PrintHierarchy(p)) == p.(scheme := None)
  {
    hide SplitTail, PrintQuery;
    SplitTailOf(p);
    SplitQueryOf(p);
    var s, tail := PrintHierarchy(p), PrintTail(p);
    if p.authority.Some? {
      var a := p.authority.value;
      SpanNotOf(a, tail, IsAuthorityEnd);
      assert s[2..] == a + tail && StartsWith(s, "//");
      assert s[2..2 + |a|] == a && s[2 + |a|..] == tail;
    } else {
      assert s == tail;
      NotSlashes(p.path, PrintQuery(p));
    }
  }

  lemma SplitTailPath(s: string)
    ensures SplitTail(s).path == s[..SpanNot(s, IsPathEnd)]
  {
  }

  lemma AuthorityKept(p: Parts, authority: Option<string>)
    ensures var q := p.(authority := authority); PrintTail(q) == PrintTail(p) && (TailParts(q) <==> TailParts(p))
  {
  }

  lemma SlashesOf(s: string)
    requires StartsWith(s, "//")
    ensures PrintHierarchy(SplitHierarchy(s)) == s && HierarchyParts(SplitHierarchy(s))
  {
    hide SplitTail, PrintTail, SpanNot;
    var rest := s[2..];
    var k := SpanNot(rest, IsAuthorityEnd);
    var a, tail := s[2..2 + k], s[2 + k..];
    assert s == "//" + a + tail && rest[..k] == a;
    PrintTailOf(tail);
    SplitTailPath(tail);
    AuthorityKept(SplitTail(tail), Some(a));
    assert tail != "" ==> tail[0] == rest[k];
  }

  lemma PrintHierarchyOf(s: string)
    ensures PrintHierarchy(SplitHierarchy(s)) == s && HierarchyParts(SplitHierarchy(s))
  {
    hide SplitTail, PrintQuery;
    if StartsWith(s, "//") {
      SlashesOf(s);
    } else {
      var p := SplitTail(s);
      PrintTailOf(s);
      SplitQueryOf(p);
      NotSlashes(p.path, PrintQuery(p));
      assert PrintHierarchy(p) == "" + s;
    }
  }

  /** A text is its scheme and colon followed by the rest exactly when the scan stops at that colon. */
  lemma SchemeColonOf(a: string, rest: string)
    requires SchemeText(a)
    ensures SchemeColon(a + ":" + rest) == Some(|a|)
  {
    var s := a + ":" + rest;
    assert s[|a|] == ':' && forall i | 0 <= i < |a| :: s[i] == a[i];
    var k := Span(s, IsSchemeChar);
    assert k >= |a|;
  }

  /** What follows the path cannot complete a scheme. */
  lemma SchemeColonOfPath(path: string, tail: string)
    requires tail == "" || IsPathEnd(tail[0])
    ensures SchemeColon(path + tail).None? <==> SchemeColon(path).None?
  {
    var s := path + tail;
    var k, n := Span(path, IsSchemeChar), Span(s, IsSchemeChar);
    assert forall i | 0 <= i < |path| :: s[i] == path[i];
    if k < |path| {
      assert n <= k;
      assert n == k;
    } else {
      assert n >= |path|;
      assert tail != "" ==> s[|path|] == tail[0];
    }
  }

  lemma SchemeColonText(s: string)
    ensures var r := SchemeColon(s); r.Some? ==> s[r.value] == ':' && SchemeText(s[..r.value])
  {
  }

  lemma SchemeReads(scheme: string, rest: string)
    requires SchemeText(scheme)
    ensures SplitUrl(scheme + ":" + rest) == SplitHierarchy(rest).(scheme := Some(scheme))
  {
    hide SplitHierarchy, SchemeColon;
    var s := scheme + ":" + rest;
    SchemeColonOf(scheme, rest);
    assert s[..|scheme|] == scheme && s[|scheme| + 1..] == rest;
  }

  lemma NoSchemeReads(p: Parts)
    requires Separable(p) && p.scheme.None?
    ensures SplitUrl(PrintHierarchy(p)) == SplitHierarchy(PrintHierarchy(p))
  {
    hide SplitHierarchy, PrintQuery;
    var rest := PrintHierarchy(p);
    if p.authority.Some? {
      assert rest[0] == '/';
    } else {
      hide SchemeColon;
      SplitQueryOf(p);
      assert rest == p.path + PrintQuery(p);
      SchemeColonOfPath(p.path, PrintQuery(p));
    }
  }

  /** Reading recovers separable parts from their printed form. */
  lemma SplitUrlOfPrint(p: Parts)
    requires Separable(p)
    ensures SplitUrl(Print(p)) == p
  {
    hide SplitUrl, SplitHierarchy, PrintHierarchy, SchemeColon, TailParts;
    SplitHierarchyOf(p);
    if p.scheme.Some? {
      SchemeReads(p.scheme.value, PrintHierarchy(p));
    } else {
      NoSchemeReads(p);
      assert Print(p) == PrintHierarchy(p);
    }
  }

  lemma SchemeKept(p: Parts, scheme: Option<string>)
    ensures var q := p.(scheme := scheme); PrintHierarchy(q) == PrintHierarchy(p) && PrintQuery(q) == PrintQuery(p)
  {
  }

  /** Reading loses nothing: every text is the printed form of its parts, and they are separable. */
  lemma PrintOfSplitUrl(s: string)
    ensures Print(SplitUrl(s)) == s && Separable(SplitUrl(s))
  {
    hide SplitHierarchy, PrintHierarchy, SchemeColon;
    var colon := SchemeColon(s);
    SchemeColonText(s);
    if colon.Some? {
      var scheme, rest := s[..colon.value], s[colon.value + 1..];
      PrintHierarchyOf(rest);
      SchemeKept(SplitHierarchy(rest), Some(scheme));
      assert s == scheme + ":" + rest;
    } else {
      PrintHierarchyOf(s);
      if SplitUrl(s).authority.None? {
        NoAuthority(SplitUrl(s));
      }
    }
  }

  lemma NoAuthority(p: Parts)
    requires TailParts(p) && p.authority.None?
    requires SchemeColon(PrintHierarchy(p)).None?
    ensures SchemeColon(p.path).None?
  {
    hide SchemeColon, PrintQuery;
    SplitQueryOf(p);
    SchemeColonOfPath(p.path, PrintQuery(p));
    assert PrintHierarchy(p) == p.path + PrintQuery(p);
  }

  // ----- the authority -----

  /** The groups of AUTHORITY_REGEX; an absent port and an empty one are treated alike. */
  datatype AuthorityParts = AuthorityParts(userinfo: Option<string>, host: string, port: string)

  /** `\[.*\]` */
  predicate Bracketed(s: string) { |s| >= 2 && s[0] == '[' && s[|s| - 1] == ']' }

  /** Length of `(\[.*\]|[^:@]*)`: up to the last `]` after a leading `[`, or up to a `:`. */
  function HostSpan(s: string): (n: nat)
    ensures n <= |s|
  {
    var close := LastIndex(s, ']');
    if s != "" && s[0] == '[' && close.Some? then close.value + 1 else SpanNot(s, IsHostEnd)
  }

  function DropColon(s: string): string { if s != "" && s[0] == ':' then s[1..] else s }

  /** Host, optional colon and port. */
  function SplitHostPort(rest: string): AuthorityParts
  {
    var n := HostSpan(rest);
    AuthorityParts(None, rest[..n], DropColon(rest[n..]))
  }

  /** `AUTHORITY_REGEX.match(authority).groupdict()` */
  function SplitAuthority(s: string): AuthorityParts
  {
    var at := LastIndex(s, '@');
    if at.None? then SplitHostPort(s)
    else SplitHostPort(s[at.value + 1..]).(userinfo := Some(s[..at.value]))
  }

  lemma HostSpanShape(rest: string)
    ensures var host := rest[..HostSpan(rest)]; Bracketed(host) || Avoids(host, IsHostEnd)
  {
  }

  /** The host never holds the `@` that ended the user information, and it takes its characters from the input. */
  lemma SplitAuthorityShape(s: string, p: char -> bool)
    requires forall i | 0 <= i < |s| :: p(s[i])
    ensures var host := SplitAuthority(s).host;
            && (Bracketed(host) || Avoids(host, IsHostEnd))
            && Avoids(host, IsAt)
            && forall i | 0 <= i < |host| :: p(host[i])
  {
    hide HostSpan, LastIndex, DropColon;
    var at := LastIndex(s, '@');
    var rest := if at.Some? then s[at.value + 1..] else s;
    HostSpanShape(rest);
    assert Avoids(rest, IsAt) && forall i | 0 <= i < |rest| :: p(rest[i]);
  }

  lemma HostSpanOf(host: string, tail: string)
    requires Bracketed(host) || (Avoids(host, IsHostEnd) && (host == "" || host[0] != '['))
    requires tail == "" || tail[0] == ':'
    requires Avoids(tail, IsClose)
    ensures HostSpan(host + tail) == |host|
  {
    var rest := host + tail;
    if Bracketed(host) {
      var front := host[..|host| - 1];
      assert host == front + [']'];
      assert rest == front + [']'] + tail;
      LastIndexOf(front, ']', tail);
    } else {
      SpanNotOf(host, tail, IsHostEnd);
      assert rest != "" ==> rest[0] != '[';
    }
  }

  function PortSuffix(port: string): string { if port == "" then "" else ":" + port }

  lemma SplitHostPortOf(host: string, port: string)
    requires Avoids(port, IsClose)
    requires Bracketed(host) || (Avoids(host, IsHostEnd) && (host == "" || host[0] != '['))
    ensures SplitHostPort(host + PortSuffix(port)) == AuthorityParts(None, host, port)
  {
    var tail := PortSuffix(port);
    var rest := host + tail;
    HostSpanOf(host, tail);
    assert rest[..|host|] == host && rest[|host|..] == tail;
    assert port != "" ==> tail[1..] == port;
  }

  lemma SplitAtSign(u: string, rest: string)
    requires Avoids(rest, IsAt)
    ensures SplitAuthority(rest) == SplitHostPort(rest)
    ensures SplitAuthority(u + "@" + rest) == SplitHostPort(rest).(userinfo := Some(u))
  {
    var s := u + ['@'] + rest;
    LastIndexOf(u, '@', rest);
    assert s[..|u|] == u && s[|u| + 1..] == rest;
  }

  /** What a printed authority reads back as. */
  lemma SplitAuthorityOf(userinfo: Option<string>, host: string, port: string)
    requires Avoids(host, IsAt) && Avoids(port, IsAt) && Avoids(port, IsClose)
    requires Bracketed(host) || (Avoids(host, IsHostEnd) && (host == "" || host[0] != '['))
    ensures var rest := host + PortSuffix(port);
            SplitAuthority(if userinfo.None? then rest else userinfo.value + "@" + rest)
              == AuthorityParts(userinfo, host, port)
  {
    SplitHostPortOf(host, port);
    SplitAtSign(if userinfo.None? then "" else userinfo.value, host + PortSuffix(port));
  }
}
