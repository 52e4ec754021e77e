/** Building redirect requests: `_same_origin`, `_is_https_redirect`, `_port_or_default`, `_redirect_method`,
    `_redirect_headers` and `_redirect_stream` of httpxp/_client.py. */
module Redirect {
  import opened Prelude
  import opened Text
  import opened Headers

  /** What redirects look at in a URL; `netloc` is its host and port as the Host header prints them. */
  datatype Url = Url(scheme: string, host: string, port: Option<int>, netloc: string)

  function PortOrDefault(url: Url): Option<int>
  {
    if url.port.Some? then url.port
    else if url.scheme == "http" then Some(80)
    else if url.scheme == "https" then Some(443)
    else None
  }

  datatype Origin = Origin(scheme: string, host: string, port: Option<int>)

  function OriginOf(url: Url): Origin { Origin(url.scheme, url.host, PortOrDefault(url)) }

  predicate SameOrigin(url: Url, other: Url)
  {
    url.scheme == other.scheme && url.host == other.host && PortOrDefault(url) == PortOrDefault(other)
  }

  predicate IsHttpsRedirect(url: Url, location: Url)
  {
    && url.host == location.host
    && url.scheme == "http" && PortOrDefault(url) == Some(80)
    && location.scheme == "https" && PortOrDefault(location) == Some(443)
  }

  datatype Request = Request(method_: string, url: Url, headers: Entries, hasBody: bool)

  /** A redirect response as the client resolves it, and the cookie its store sets for the new URL. */
  datatype Hop = Hop(status: int, url: Url, cookie: Option<string>)

  function RedirectMethod(m: string, status: int): string
  {
    if m == "HEAD" then m
    else if status == 303 || status == 302 then "GET"
    else if status == 301 && m == "POST" then "GET"
    else m
  }

  /** `headers.pop(key, None)` */
  function Pop(headers: Entries, key: string): Entries { Without(headers, key) }

  /** Authorization and Host after a change of origin. */
  function OriginHeaders(headers: Entries, from: Url, to: Url): Entries
  {
    if SameOrigin(to, from) then headers
    else Assigned(if IsHttpsRedirect(from, to) then headers else Pop(headers, "authorization"),
                  NewEntry("Host", to.netloc))
  }

  function RedirectHeaders(request: Request, to: Url, method_: string): Entries
  {
    var headers := OriginHeaders(request.headers, request.url, to);
    var bodiless := if method_ != request.method_ && method_ == "GET"
                    then Pop(Pop(headers, "content-length"), "transfer-encoding") else headers;
    Pop(bodiless, "cookie")
  }

  /** The request constructor: the cookie of the client's store, and, when no body stream is passed on, a
      Host in front if there is none. */
  function Constructed(headers: Entries, to: Url, cookie: Option<string>, bodyDropped: bool): Entries
  {
    var withCookie := if cookie.None? then headers else Assigned(headers, NewEntry("Cookie", cookie.value));
    if !bodyDropped || Has(withCookie, "host") || to.host == "" then withCookie
    else [NewEntry("Host", to.netloc)] + withCookie
  }

  /** `_build_redirect_request` */
  function Redirected(request: Request, hop: Hop): Request
  {
    var method_ := RedirectMethod(request.method_, hop.status);
    var bodyDropped := method_ != request.method_ && method_ == "GET";
    Request(method_, hop.url,
            Constructed(RedirectHeaders(request, hop.url, method_), hop.url, hop.cookie, bodyDropped),
            request.hasBody && !bodyDropped)
  }

  function Followed(request: Request, hops: seq<Hop>): Request
    decreases |hops|
  {
    if hops == [] then request else Followed(Redirected(request, hops[0]), hops[1..])
  }

  // ----- one redirect -----

  lemma HeaderNames()
    ensures Lower("Host") == "host" && Lower("Cookie") == "cookie"
  {
  }

  lemma OtherNames()
    ensures "authorization" != "host" && "authorization" != "cookie" && "cookie" != "host"
    ensures "authorization" != "content-length" && "authorization" != "transfer-encoding"
    ensures "content-length" != "host" && "content-length" != "cookie" && "content-length" != "transfer-encoding"
    ensures "transfer-encoding" != "host" && "transfer-encoding" != "cookie"
  {
    assert "authorization"[0] == 'a' && "host"[0] == 'h' && "cookie"[0] == 'c' && "transfer-encoding"[0] == 't';
    assert "content-length"[2] == 'n' && "cookie"[2] == 'o';
  }

  lemma ConstructedValues(headers: Entries, to: Url, cookie: Option<string>, bodyDropped: bool, key: string)
    ensures Values(Constructed(headers, to, cookie, bodyDropped), key) ==
            if key == "cookie" && cookie.Some? then [cookie.value]
            else if key == "host" && bodyDropped && Values(headers, key) == [] && to.host != "" then [to.netloc]
            else Values(headers, key)
  {
    HeaderNames();
    OtherNames();
    hide Lower;
    var withCookie := if cookie.None? then headers else Assigned(headers, NewEntry("Cookie", cookie.value));
    if cookie.Some? {
      AssignedValues(headers, NewEntry("Cookie", cookie.value), key);
      AssignedValues(headers, NewEntry("Cookie", cookie.value), "host");
    }
    WithoutAbsent(withCookie, "host");
    WithoutSplit([NewEntry("Host", to.netloc)], withCookie, key);
    assert Values([NewEntry("Host", to.netloc)], key) == if key == "host" then [to.netloc] else [];
  }

  lemma RedirectHeaderValues(request: Request, to: Url, method_: string, key: string)
    ensures var moved := !SameOrigin(to, request.url);
            var toGet := method_ != request.method_ && method_ == "GET";
            Values(RedirectHeaders(request, to, method_), key) ==
            if key == "cookie" then []
            else if toGet && (key == "content-length" || key == "transfer-encoding") then []
            else if moved && key == "host" then [to.netloc]
            else if moved && key == "authorization" && !IsHttpsRedirect(request.url, to) then []
            else Values(request.headers, key)
  {
    HeaderNames();
    OtherNames();
    hide Lower;
    var popped := if IsHttpsRedirect(request.url, to) then request.headers else Pop(request.headers, "authorization");
    WithoutValues(request.headers, "authorization", key);
    AssignedValues(popped, NewEntry("Host", to.netloc), key);
    var headers := OriginHeaders(request.headers, request.url, to);
    WithoutValues(headers, "content-length", key);
    WithoutValues(Pop(headers, "content-length"), "transfer-encoding", key);
    WithoutValues(Pop(Pop(headers, "content-length"), "transfer-encoding"), "cookie", key);
    WithoutValues(headers, "cookie", key);
  }

  /** Every header of a redirected request. */
  lemma RedirectedValues(request: Request, hop: Hop, key: string)
    ensures var next := Redirected(request, hop);
            var moved := !SameOrigin(hop.url, request.url);
            var toGet := next.method_ != request.method_;
            Values(next.headers, key) ==
            if key == "cookie" then (if hop.cookie.None? then [] else [hop.cookie.value])
            else if toGet && (key == "content-length" || key == "transfer-encoding") then []
            else if key == "authorization" && moved && !IsHttpsRedirect(request.url, hop.url) then []
            else if key == "host" && (moved || (toGet && Values(request.headers, key) == [] && hop.url.host != ""))
                 then [hop.url.netloc]
            else Values(request.headers, key)
    ensures var next := Redirected(request, hop);
            next.method_ != request.method_ ==> next.method_ == "GET" && !next.hasBody
    ensures request.method_ == "HEAD" || request.method_ == "GET" ==>
              Redirected(request, hop).method_ == request.method_
    ensures Redirected(request, hop).method_ == request.method_ ==> Redirected(request, hop).hasBody == request.hasBody
  {
    OtherNames();
    var method_ := RedirectMethod(request.method_, hop.status);
    var bodyDropped := method_ != request.method_ && method_ == "GET";
    RedirectHeaderValues(request, hop.url, method_, key);
    ConstructedValues(RedirectHeaders(request, hop.url, method_), hop.url, hop.cookie, bodyDropped, key);
  }

  /** What method and body become, by status: 302 and 303 give GET without the body for every method but HEAD, 301
      does for POST alone, and every other status changes neither. A GET keeps its body. */
  lemma RedirectedMethod(request: Request, hop: Hop)
    ensures var m, status, next := request.method_, hop.status, Redirected(request, hop);
            if m != "HEAD" && m != "GET" && (status == 302 || status == 303 || (status == 301 && m == "POST"))
            then next.method_ == "GET" && !next.hasBody
            else next.method_ == m && next.hasBody == request.hasBody
  {
  }

  /** Which ports count as the same: the default one may be written or not, under HTTP and HTTPS only. */
  lemma EffectivePorts(host: string, netloc: string, other: string)
    ensures SameOrigin(Url("http", host, None, netloc), Url("http", host, Some(80), other))
    ensures SameOrigin(Url("https", host, None, netloc), Url("https", host, Some(443), other))
    ensures !SameOrigin(Url("http", host, None, netloc), Url("http", host, Some(443), other))
    ensures !SameOrigin(Url("https", host, None, netloc), Url("https", host, Some(80), other))
    ensures forall scheme, port | scheme != "http" && scheme != "https" ::
              !SameOrigin(Url(scheme, host, None, netloc), Url(scheme, host, Some(port), other))
  {
  }

  /** Written out: Authorization is kept on the same scheme, host and port, and from HTTP on port 80 to HTTPS on port
      443 of the same host, and dropped otherwise. */
  lemma AuthorizationOnHop(request: Request, hop: Hop)
    ensures var from, to := request.url, hop.url;
            var fromPort := if from.port.Some? then from.port.value else if from.scheme == "http" then 80 else 443;
            var toPort := if to.port.Some? then to.port.value else if to.scheme == "http" then 80 else 443;
            var same := from.scheme == to.scheme && (from.port == to.port
                          || ((from.scheme == "http" || from.scheme == "https") && fromPort == toPort));
            var upgrade := from.scheme == "http" && fromPort == 80 && to.scheme == "https" && toPort == 443;
            Values(Redirected(request, hop).headers, "authorization")
            == if from.host == to.host && (same || upgrade) then Values(request.headers, "authorization") else []
  {
    OtherNames();
    RedirectedValues(request, hop, "authorization");
  }

  // ----- a chain of redirects -----

  /** Every hop stays on the origin or is a direct HTTP to HTTPS upgrade. */
  predicate KeepsAuthorization(from: Url, hops: seq<Hop>)
    decreases |hops|
  {
    hops == [] ||
    ((SameOrigin(hops[0].url, from) || IsHttpsRedirect(from, hops[0].url))
     && KeepsAuthorization(hops[0].url, hops[1..]))
  }

  /** The header reaches the end of the chain, unchanged, exactly when every hop keeps it. */
  lemma {:induction false} AuthorizationAlongChain(request: Request, hops: seq<Hop>)
    ensures Values(Followed(request, hops).headers, "authorization") ==
            if KeepsAuthorization(request.url, hops) then Values(request.headers, "authorization") else []
    decreases |hops|
  {
    if hops != [] {
      OtherNames();
      RedirectedValues(request, hops[0], "authorization");
      AuthorizationAlongChain(Redirected(request, hops[0]), hops[1..]);
    }
  }

  lemma {:induction false} FollowedUrl(request: Request, hops: seq<Hop>)
    ensures Followed(request, hops).url == if hops == [] then request.url else hops[|hops| - 1].url
    decreases |hops|
  {
    if hops != [] {
      FollowedUrl(Redirected(request, hops[0]), hops[1..]);
    }
  }

  /** Along hops that keep the header the host never changes and at most one upgrade happens. */
  lemma {:induction false} KeepingStaysAtHome(from: Url, hops: seq<Hop>)
    requires KeepsAuthorization(from, hops)
    ensures var last := if hops == [] then from else hops[|hops| - 1].url;
            || OriginOf(last) == OriginOf(from)
            || (OriginOf(from) == Origin("http", from.host, Some(80))
                && OriginOf(last) == Origin("https", from.host, Some(443)))
    decreases |hops|
  {
    if hops != [] {
      KeepingStaysAtHome(hops[0].url, hops[1..]);
    }
  }

  /** A request at the end of a redirect chain that still carries the header is at the first request's
      origin, or at its HTTPS upgrade. */
  lemma AuthorizationStaysAtHome(request: Request, hops: seq<Hop>)
    requires Values(Followed(request, hops).headers, "authorization") != []
    ensures var from, last := OriginOf(request.url), OriginOf(Followed(request, hops).url);
            || last == from
            || (from == Origin("http", request.url.host, Some(80))
                && last == Origin("https", request.url.host, Some(443)))
    ensures Values(Followed(request, hops).headers, "authorization") == Values(request.headers, "authorization")
  {
    AuthorizationAlongChain(request, hops);
    FollowedUrl(request, hops);
    KeepingStaysAtHome(request.url, hops);
  }

  /** A status that turns the method into GET. */
  predicate TurnsToGet(m: string, status: int)
  {
    m != "HEAD" && (status == 302 || status == 303 || (status == 301 && m == "POST"))
  }

  /** The method at the end is the first one, or GET exactly if some hop has a status that turns the first one into
      GET; the body is still there exactly if it was and the method is the first one. */
  lemma {:induction false} MethodAlongChain(request: Request, hops: seq<Hop>)
    ensures var last := Followed(request, hops);
            && last.method_ == (if exists i :: 0 <= i < |hops| && TurnsToGet(request.method_, hops[i].status) then "GET"
                                else request.method_)
            && (last.hasBody <==> request.hasBody && last.method_ == request.method_)
    decreases |hops|
  {
    if hops != [] {
      var next := Redirected(request, hops[0]);
      RedirectedMethod(request, hops[0]);
      MethodAlongChain(next, hops[1..]);
      assert forall i | 1 <= i < |hops| :: hops[i] == hops[1..][i - 1];
      if i :| 0 <= i < |hops[1..]| && TurnsToGet(request.method_, hops[1..][i].status) {
        assert TurnsToGet(request.method_, hops[i + 1].status);
      }
    }
  }
}
