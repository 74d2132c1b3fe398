/**
 The firmware's HTTP client: splitting a URL into scheme, host and path into
 fixed-size buffers, and the GET that fills an HttpResponse. Name resolution and
 the TLS/HTTP exchange are library calls and are parameters here: `resolves`
 says whether a host name resolves, `server` gives the status and bytes the
 library reports for a request.
 */
module HttpClient {
  import opened Wrappers
  import opened Text

  const HOST_SIZE: nat := 256
  const PATH_SIZE: nat := 512
  /** `char body[524288]`: the response body and its terminating NUL. */
  const BODY_SIZE: nat := 524288

  const HTTP_PORT: nat := 80
  const HTTPS_PORT: nat := 443
  /** The library's status for a successful exchange. */
  const HTTP_OK: int := 200

  const HTTPS_SCHEME: string := "https://"
  const HTTP_SCHEME: string := "http://"

  /** A parsed URL: the buffers ParseUrl fills. */
  datatype Target = Target(host: string, path: string, useSSL: bool)

  /** HttpResponse: bodyLength is the length of `body`. */
  datatype Response = Response(statusCode: int, body: string, success: bool)

  /** What the client hands the TLS/HTTP library. */
  datatype Request = Request(host: string, port: nat, path: string, useSSL: bool)

  /** What the library reports: a status and the bytes it wrote into the body buffer. */
  datatype Reply = Reply(status: int, data: string)

  /** The URL after its "https://" or "http://" prefix, if any, and whether it was https. */
  function StripScheme(url: string): (r: (string, bool))
    ensures r.1 <==> HasAt(url, 0, HTTPS_SCHEME)
    ensures r.1 ==> url == HTTPS_SCHEME + r.0
    ensures !r.1 && HasAt(url, 0, HTTP_SCHEME) ==> url == HTTP_SCHEME + r.0
    ensures !HasAt(url, 0, HTTPS_SCHEME) && !HasAt(url, 0, HTTP_SCHEME) ==> r.0 == url
  {
    if HasAt(url, 0, HTTPS_SCHEME) then (url[|HTTPS_SCHEME|..], true)
    else if HasAt(url, 0, HTTP_SCHEME) then (url[|HTTP_SCHEME|..], false)
    else (url, false)
  }

  /**
   ParseUrl: the host is the text before the first '/' after the scheme, the path
   that '/' and what follows (or "/" when there is none), cut to PATH_SIZE - 1
   characters. Fails when the host does not fit its buffer; an empty host is
   accepted.
   */
  function ParseUrl(url: string): (r: Option<Target>)
    ensures var (rest, ssl) := StripScheme(url);
            r.Some? <==> (match FindChar(rest, '/', 0)
                          case Some(slash) => slash < HOST_SIZE
                          case None => |rest| < HOST_SIZE)
    ensures r.Some? ==> |r.value.host| < HOST_SIZE && '/' !in r.value.host
    ensures r.Some? ==> 0 < |r.value.path| < PATH_SIZE && r.value.path[0] == '/'
    ensures r.Some? ==> (r.value.useSSL <==> HasAt(url, 0, HTTPS_SCHEME))
  {
    var (rest, ssl) := StripScheme(url);
    var slash := FindChar(rest, '/', 0);
    var hostLength := if slash.Some? then slash.value else |rest|;
    var path := if slash.Some? then Truncate(rest[slash.value..], PATH_SIZE) else "/";
    if hostLength >= HOST_SIZE then None
    else
      assert forall i | 0 <= i < hostLength :: rest[..hostLength][i] == rest[i];
      Some(Target(rest[..hostLength], path, ssl))
  }

  /** A URL assembled from a scheme, a host without '/' and a path starting with '/' parses back into them. */
  lemma {:induction false} ParseUrlOfParts(ssl: bool, host: string, path: string)
    requires |host| < HOST_SIZE && '/' !in host
    requires 0 < |path| < PATH_SIZE && path[0] == '/'
    ensures ParseUrl((if ssl then HTTPS_SCHEME else HTTP_SCHEME) + host + path) == Some(Target(host, path, ssl))
  {
    var scheme := if ssl then HTTPS_SCHEME else HTTP_SCHEME;
    assert scheme + host + path == scheme + (host + path);
    StripSchemeOf(ssl, host + path);
    SlashAfterHost(host, path);
  }

  /** Stripping the scheme a URL was assembled with gives back the rest and the scheme's kind. */
  lemma {:induction false} StripSchemeOf(ssl: bool, rest: string)
    ensures StripScheme((if ssl then HTTPS_SCHEME else HTTP_SCHEME) + rest) == (rest, ssl)
  {
    var scheme := if ssl then HTTPS_SCHEME else HTTP_SCHEME;
    var url := scheme + rest;
    assert url[..|scheme|] == scheme;
    assert url[|scheme|..] == rest;
    if !ssl && |url| >= |HTTPS_SCHEME| {
      assert url[..|HTTPS_SCHEME|][4] == url[4] == ':' != 's';
    }
  }

  /** The first '/' of host + path is the path's own. */
  lemma {:induction false} SlashAfterHost(host: string, path: string)
    requires '/' !in host && |path| > 0 && path[0] == '/'
    ensures FindChar(host + path, '/', 0) == Some(|host|)
    ensures (host + path)[..|host|] == host && (host + path)[|host|..] == path
  {
    var s := host + path;
    assert s[|host|] == '/';
    assert forall i | 0 <= i < |host| :: s[i] == host[i] && host[i] in host;
    FindCharFirst(s, '/', 0, |host|);
  }

  /** The first occurrence of c from `from` is the index found when none comes earlier. */
  lemma {:induction false} FindCharFirst(s: string, c: char, from: nat, i: nat)
    requires from <= i < |s| && s[i] == c
    requires forall j | from <= j < i :: s[j] != c
    ensures FindChar(s, c, from) == Some(i)
    decreases i - from
  {
    if from < i {
      FindCharFirst(s, c, from + 1, i);
    }
  }

  /** A URL without a '/' after its scheme asks for "/". */
  lemma {:induction false} NoPathAsksForRoot(url: string)
    requires '/' !in StripScheme(url).0 && |StripScheme(url).0| < HOST_SIZE
    ensures ParseUrl(url) == Some(Target(StripScheme(url).0, "/", HasAt(url, 0, HTTPS_SCHEME)))
  {
    var rest := StripScheme(url).0;
    assert forall i | 0 <= i < |rest| :: rest[i] in rest;
    assert rest[..|rest|] == rest;
  }

  /** A host name of HOST_SIZE characters or more makes the URL unusable. */
  lemma {:induction false} LongHostRejected(host: string)
    requires |host| >= HOST_SIZE && '/' !in host
    ensures ParseUrl(HTTPS_SCHEME + host + "/").None?
  {
    var url := HTTPS_SCHEME + host + "/";
    assert url[..|HTTPS_SCHEME|] == HTTPS_SCHEME;
    assert url[|HTTPS_SCHEME|..] == host + "/";
    SlashAfterHost(host, "/");
  }

  /** The port the library connects to. */
  function PortFor(useSSL: bool): (r: nat)
    ensures r == HTTPS_PORT || r == HTTP_PORT
    ensures useSSL <==> r == HTTPS_PORT
  {
    if useSSL then HTTPS_PORT else HTTP_PORT
  }

  /**
   The GET with an explicit host and path: the response is first reset; a host
   that does not resolve leaves it so; a status other than HTTP_OK is recorded
   with an empty body; otherwise the body is what the library wrote, at most
   BODY_SIZE - 1 bytes, with status 200.
   */
  function GetPath(host: string, path: string, useSSL: bool,
                   resolves: string -> bool, server: Request -> Reply): (r: (bool, Response))
    ensures r.0 <==> r.1.success
    ensures r.0 <==> resolves(host) && server(Request(host, PortFor(useSSL), path, useSSL)).status == HTTP_OK
    ensures r.0 ==> r.1.statusCode == 200 && |r.1.body| < BODY_SIZE
                    && r.1.body <= server(Request(host, PortFor(useSSL), path, useSSL)).data
    ensures !r.0 ==> r.1.body == []
    ensures !resolves(host) ==> r.1 == Response(0, [], false)
  {
    if !resolves(host) then (false, Response(0, [], false))
    else
      var reply := server(Request(host, PortFor(useSSL), path, useSSL));
      if reply.status != HTTP_OK then (false, Response(reply.status, [], false))
      else (true, Response(200, Truncate(reply.data, BODY_SIZE), true))
  }

  /**
   The GET of a URL: a URL that does not parse clears only the success flag of
   the previous response; otherwise the GET of its host and path.
   */
  function Get(url: string, previous: Response,
               resolves: string -> bool, server: Request -> Reply): (r: (bool, Response))
    ensures ParseUrl(url).None? ==> !r.0 && r.1 == previous.(success := false)
    ensures r.0 ==> r.1.success && r.1.statusCode == 200
    ensures r.0 ==> ParseUrl(url).Some? && resolves(ParseUrl(url).value.host)
  {
    match ParseUrl(url)
    case None => (false, previous.(success := false))
    case Some(t) => GetPath(t.host, t.path, t.useSSL, resolves, server)
  }

  /** An https URL is fetched on port 443 and an http one on port 80, with the host and path it names. */
  lemma {:induction false} GetAsksServer(ssl: bool, host: string, path: string, previous: Response,
                                         resolves: string -> bool, server: Request -> Reply)
    requires |host| < HOST_SIZE && '/' !in host && 0 < |path| < PATH_SIZE && path[0] == '/'
    requires resolves(host)
    ensures var url := (if ssl then HTTPS_SCHEME else HTTP_SCHEME) + host + path;
            var reply := server(Request(host, if ssl then 443 else 80, path, ssl));
            Get(url, previous, resolves, server).0 <==> reply.status == HTTP_OK
  {
    ParseUrlOfParts(ssl, host, path);
  }
}
