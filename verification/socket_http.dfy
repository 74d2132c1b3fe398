/**
 The socket HTTP client: URL parsing with an optional port, the GET request it
 writes, and the reading of the raw response: status line, headers and body,
 with chunked transfer coding (section 7.1 of RFC 9112) decoded. Name
 resolution, the connection, sending and each receive are outcomes given as
 parameters. A `std::stoi` or `substr` exception, which nothing catches, ends
 the computation as `Threw`.
 */
module SocketHttp {
  import opened Wrappers
  import opened Text
  import opened Stoi
  import opened Machine
  import StringUtils

  const CRLF: string := "\r\n"
  const BLANK_LINE: string := "\r\n\r\n"
  const TWO64: int := 0x1_0000_0000_0000_0000

  // ---------------------------------------------------------------------------
  // ParseUrl
  // ---------------------------------------------------------------------------

  datatype Url = Url(ok: bool, host: string, path: string, port: int, https: bool)

  /**
   ParseUrl: the scheme sets https and the default port (443 or 80); the host is
   the text before the first '/', the path the rest (or "/"); a ':' in the host
   gives the port, read with stoi, and ends the host. The URL is usable iff the
   host is not empty.
   */
  function ParseUrl(url: string): (r: Try<Url>)
    ensures r.Ok? ==> (r.value.https <==> StringUtils.StartsWith(url, "https://"))
    ensures r.Ok? ==> (r.value.ok <==> r.value.host != [])
    ensures r.Ok? ==> ':' !in r.value.host && '/' !in r.value.host
    ensures r.Ok? ==> |r.value.path| > 0 && r.value.path[0] == '/'
  {
    var https := StringUtils.StartsWith(url, "https://");
    var remaining := if https then url[8..] else if StringUtils.StartsWith(url, "http://") then url[7..] else url;
    var defaultPort := if https then 443 else 80;
    var slash := FindChar(remaining, '/', 0);
    var hostPart := if slash.None? then remaining else remaining[..slash.value];
    var path := if slash.None? then "/" else remaining[slash.value..];
    assert '/' !in hostPart by {
      assert forall i | 0 <= i < |hostPart| :: hostPart[i] == remaining[i];
    }
    match FindChar(hostPart, ':', 0)
    case None => Ok(Url(hostPart != [], hostPart, path, defaultPort, https))
    case Some(colon) =>
      assert forall i | 0 <= i < colon :: hostPart[..colon][i] == hostPart[i];
      match Stoi.Stoi(hostPart[colon + 1..], 10)
      case Threw(e) => Threw(e)
      case Ok(port) => Ok(Url(hostPart[..colon] != [], hostPart[..colon], path, port, https))
  }

  /** Without a ':' before the path, the port is the scheme's, and a ':' in the path does not matter. */
  lemma {:induction false} DefaultPort(host: string, path: string)
    requires ':' !in host && '/' !in host && |path| > 0 && path[0] == '/'
    ensures ParseUrl("https://" + host + path) == Ok(Url(host != [], host, path, 443, true))
    ensures ParseUrl("http://" + host + path) == Ok(Url(host != [], host, path, 80, false))
  {
    SchemeStripped("https://", host, path);
    SchemeStripped("http://", host, path);
    assert !StringUtils.StartsWith("http://" + host + path, "https://") by {
      assert ("http://" + host + path)[4] == ':';
    }
    NoColon(host);
  }

  /** After the scheme come the host and the path, and the first '/' is the path's. */
  lemma {:induction false} SchemeStripped(scheme: string, host: string, path: string)
    requires '/' !in host && |path| > 0 && path[0] == '/'
    ensures var url := scheme + host + path;
            StringUtils.StartsWith(url, scheme) && url[|scheme|..] == host + path
            && FindChar(host + path, '/', 0) == Some(|host|)
            && (host + path)[..|host|] == host && (host + path)[|host|..] == path
  {
    var url := scheme + host + path;
    assert url[..|scheme|] == scheme;
    assert url[|scheme|..] == host + path;
    var s := host + path;
    assert forall i | 0 <= i < |host| :: s[i] == host[i] && host[i] in host;
    assert s[|host|] == '/';
  }

  lemma {:induction false} NoColon(host: string)
    requires ':' !in host
    ensures FindChar(host, ':', 0).None?
  {
    assert forall i | 0 <= i < |host| :: host[i] in host;
  }

  /** A port after the host is read with stoi and removed from the host. */
  lemma {:induction false} PortOverrides(host: string, port: string, path: string)
    requires ':' !in host && '/' !in host && '/' !in port && |path| > 0 && path[0] == '/'
    ensures var r := ParseUrl("http://" + host + ":" + port + path);
            match Stoi.Stoi(port, 10)
            case Threw(e) => r == Threw(e)
            case Ok(n) => r == Ok(Url(host != [], host, path, n, false))
  {
    var hp := host + ":" + port;
    HostAndPort(host, port, hp);
    var url := "http://" + hp + path;
    assert "http://" + host + ":" + port + path == url;
    SchemeStripped("http://", hp, path);
    assert !StringUtils.StartsWith(url, "https://") by {
      assert url[4] == ':';
    }
  }

  /** "host:port" splits at its first ':', and holds no '/'. */
  lemma {:induction false} HostAndPort(host: string, port: string, hp: string)
    requires ':' !in host && '/' !in host && '/' !in port && hp == host + ":" + port
    ensures '/' !in hp && FindChar(hp, ':', 0) == Some(|host|)
    ensures hp[..|host|] == host && hp[|host| + 1..] == port
  {
    forall i | 0 <= i < |hp| ensures hp[i] != '/' {
      if i < |host| {
        assert hp[i] == host[i] && host[i] in host;
      } else if i > |host| {
        assert hp[i] == port[i - |host| - 1] && port[i - |host| - 1] in port;
      }
    }
    forall j | 0 <= j < |host| ensures hp[j] != ':' {
      assert hp[j] == host[j] && host[j] in host;
    }
    FindCharAt(hp, ':', 0, |host|);
    assert hp[..|host|] == host && hp[|host| + 1..] == port;
  }

  /** A URL with nothing between the scheme and the path has no host and is not usable. */
  lemma {:induction false} EmptyHostRejected(path: string)
    requires |path| > 0 && path[0] == '/'
    ensures ParseUrl("http://" + path).Ok? && !ParseUrl("http://" + path).value.ok
  {
    SchemeStripped("http://", [], path);
    assert "http://" + [] + path == "http://" + path;
    assert !StringUtils.StartsWith("http://" + path, "https://") by {
      assert ("http://" + path)[4] == ':';
    }
  }

  // ---------------------------------------------------------------------------
  // The request
  // ---------------------------------------------------------------------------

  /** The extra header lines, each "key: value" and a line end. */
  function HeaderLines(headers: seq<(string, string)>): (r: string)
    ensures headers == [] <==> r == []
    ensures r != [] ==> |r| >= 2 && r[|r| - 2..] == CRLF
    decreases |headers|
  {
    if headers == [] then [] else headers[0].0 + ": " + headers[0].1 + CRLF + HeaderLines(headers[1..])
  }

  /**
   The GET request: the request line, Host, User-Agent, Accept and Connection,
   the extra headers in the map's key order, and the blank line.
   */
  function BuildRequest(path: string, host: string, headers: seq<(string, string)>): (r: string)
    ensures RequestLine(path) <= r
    ensures |r| >= |BLANK_LINE| && r[|r| - |BLANK_LINE|..] == BLANK_LINE
  {
    var line := RequestLine(path);
    var rest := RequestHeaders(host, headers);
    ConcatEnds(line, rest, 4);
    line + rest
  }

  /** The lines after the request line, up to and including the blank line. */
  function RequestHeaders(host: string, headers: seq<(string, string)>): (r: string)
    ensures |r| >= 4 && r[|r| - 4..] == BLANK_LINE && r[..2] == CRLF
  {
    var fixed := CRLF + "Host: " + host + CRLF + "User-Agent: MagicMirror/1.0\r\n"
                 + "Accept: */*\r\n" + "Connection: close\r\n";
    RequestEnd(fixed, HeaderLines(headers));
    fixed + HeaderLines(headers) + CRLF
  }

  lemma {:induction false} ConcatEnds(a: string, b: string, n: nat)
    requires |b| >= n
    ensures a <= a + b && (a + b)[|a + b| - n..] == b[|b| - n..]
  {
  }

  function RequestLine(path: string): string {
    "GET " + path + " HTTP/1.1"
  }

  /** The header block ends with a line end, so the request ends with a blank line. */
  lemma {:induction false} RequestEnd(fixed: string, lines: string)
    requires |fixed| >= 2 && fixed[|fixed| - 2..] == CRLF
    requires lines == [] || (|lines| >= 2 && lines[|lines| - 2..] == CRLF)
    ensures var r := fixed + lines + CRLF; |r| >= 4 && r[|r| - 4..] == BLANK_LINE
  {
    var r := fixed + lines + CRLF;
    var before := fixed + lines;
    assert before[|before| - 2..] == CRLF by {
      if lines == [] {
        assert before == fixed;
      } else {
        assert before[|before| - 2..] == lines[|lines| - 2..];
      }
    }
    assert r[|r| - 4..] == before[|before| - 2..] + CRLF;
  }

  /** The request line is the request's first line when the path holds no line break. */
  lemma {:induction false} RequestLineFirst(path: string, host: string, headers: seq<(string, string)>)
    requires '\r' !in path
    ensures Find(BuildRequest(path, host, headers), CRLF, 0) == Some(|RequestLine(path)|)
  {
    var r := BuildRequest(path, host, headers);
    var line := RequestLine(path);
    var n := |line|;
    var rest := RequestHeaders(host, headers);
    assert r == line + rest;
    assert rest[..2] == CRLF;
    assert r[..n] == line;
    assert r[n..n + 2] == rest[..2];
    forall j | 0 <= j < n ensures !HasAt(r, j, CRLF) {
      assert r[j] == line[j];
      if j < 4 {
        assert line[j] == "GET "[j];
      } else if j < 4 + |path| {
        assert line[j] == path[j - 4] && path[j - 4] in path;
      } else {
        assert line[j] == " HTTP/1.1"[j - 4 - |path|];
      }
      NotHasAt(r, j, CRLF);
    }
    FindFirstAt(r, CRLF, 0, n);
  }

  // ---------------------------------------------------------------------------
  // Reading the response
  // ---------------------------------------------------------------------------

  datatype Response = Response(statusCode: int, body: string, headers: map<string, string>, error: string)

  /** What the receive loop collects: each chunk up to its first NUL, until a receive returns nothing. */
  function Gather(received: seq<string>): string
    decreases |received|
  {
    if received == [] || received[0] == [] then [] else CStr(received[0]) + Gather(received[1..])
  }

  /** Receives without NUL bytes are gathered whole and in order, up to the first empty one. */
  lemma {:induction false} GatherWhole(received: seq<string>, more: seq<string>)
    requires forall i | 0 <= i < |received| :: received[i] != [] && 0 as char !in received[i]
    ensures Gather(received + [[]] + more) == Concat(received)
    decreases |received|
  {
    if received == [] {
      assert [] + [[]] + more == [[]] + more;
    } else {
      CStrOfPlain(received[0]);
      assert (received + [[]] + more)[1..] == received[1..] + [[]] + more;
      GatherWhole(received[1..], more);
    }
  }

  /** The status token: from after the first space to the next space or the end of the line. */
  function StatusToken(statusLine: string): (r: Option<string>)
    ensures r.Some? ==> ' ' !in r.value
  {
    match FindChar(statusLine, ' ', 0)
    case None => None
    case Some(s1) =>
      var token := match FindChar(statusLine, ' ', s1 + 1)
                   case None => statusLine[s1 + 1..]
                   case Some(s2) => statusLine[s1 + 1..s2];
      assert forall i | 0 <= i < |token| :: token[i] == statusLine[s1 + 1 + i];
      Some(token)
  }

  /** The status code: 0 without a space in the status line, else the token read with stoi. */
  function StatusCode(statusLine: string): (r: Try<int>)
    ensures StatusToken(statusLine).None? ==> r == Ok(0)
    ensures StatusToken(statusLine).Some? ==> r == Stoi.Stoi(StatusToken(statusLine).value, 10)
  {
    match StatusToken(statusLine)
    case None => Ok(0)
    case Some(token) => Stoi.Stoi(token, 10)
  }

  /** "HTTP/1.1 200 OK": the token is the text between the first two spaces. */
  lemma {:induction false} TokenBetweenSpaces(version: string, code: string, reason: string)
    requires ' ' !in version && ' ' !in code
    ensures StatusToken(version + " " + code + " " + reason) == Some(code)
  {
    var line := version + " " + code + " " + reason;
    var v := |version|;
    assert PlacedAt(line, 0, version) && PlacedAt(line, v + 1, code);
    SpaceAfter(line, version, 0);
    SpaceAfter(line, code, v + 1);
    assert line[v + 1..v + 1 + |code|] == code;
  }

  /** A word without spaces placed at i and followed by a space: that space is the first one from i on. */
  lemma {:induction false} SpaceAfter(line: string, word: string, i: nat)
    requires ' ' !in word && PlacedAt(line, i, word) && i + |word| < |line| && line[i + |word|] == ' '
    ensures FindChar(line, ' ', i) == Some(i + |word|)
  {
    forall j | i <= j < i + |word| ensures line[j] != ' ' {
      assert line[j] == word[j - i] && word[j - i] in word;
    }
    FindCharAt(line, ' ', i, i + |word|);
  }

  /** One header line: its key trimmed and lower-cased and its value trimmed, when it has a ':'. */
  function HeaderOf(line: string): Option<(string, string)> {
    match FindChar(line, ':', 0)
    case None => None
    case Some(colon) => Some((StringUtils.ToLower(StringUtils.Trim(line[..colon])), StringUtils.Trim(line[colon + 1..])))
  }

  /** The header loop: each line with a ':' stores its value under its key, over any earlier one. */
  function AddHeaders(lines: seq<string>, acc: map<string, string>): map<string, string>
    decreases |lines|
  {
    if lines == [] then acc
    else
      var next := match HeaderOf(lines[0]) case None => acc case Some(kv) => acc[kv.0 := kv.1];
      AddHeaders(lines[1..], next)
  }

  /** The value of the last line with key k. */
  function LastValue(lines: seq<string>, k: string): Option<string>
    decreases |lines|
  {
    if lines == [] then None
    else match LastValue(lines[1..], k)
      case Some(v) => Some(v)
      case None => if HeaderOf(lines[0]).Some? && HeaderOf(lines[0]).value.0 == k then Some(HeaderOf(lines[0]).value.1) else None
  }

  /** A header holds the value of the last line with its key: the last duplicate wins. */
  lemma {:induction false} LastDuplicateWins(lines: seq<string>, acc: map<string, string>, k: string)
    ensures var h := AddHeaders(lines, acc);
            (k in h <==> LastValue(lines, k).Some? || k in acc)
            && (LastValue(lines, k).Some? ==> h[k] == LastValue(lines, k).value)
            && (LastValue(lines, k).None? && k in acc ==> h[k] == acc[k])
    decreases |lines|
  {
    if lines != [] {
      var next := match HeaderOf(lines[0]) case None => acc case Some(kv) => acc[kv.0 := kv.1];
      LastDuplicateWins(lines[1..], next, k);
    }
  }

  /** Is the body in chunked transfer coding? */
  predicate Chunked(headers: map<string, string>) {
    "transfer-encoding" in headers && StringUtils.ContainsStr(headers["transfer-encoding"], "chunked")
  }

  /**
   The header lines after the status line. With no line end in the header block
   the code takes `substr(npos + 2)`, which wraps to `substr(1)`: the block less
   its first character, or an out_of_range exception when the block is empty.
   */
  function HeaderText(headerPart: string): (r: Try<string>)
    ensures Find(headerPart, CRLF, 0).Some? ==> r == Ok(headerPart[Find(headerPart, CRLF, 0).value + 2..])
  {
    match Find(headerPart, CRLF, 0)
    case Some(firstLine) => Ok(headerPart[firstLine + 2..])
    case None => if |headerPart| < 1 then Threw(OutOfRange) else Ok(headerPart[1..])
  }

  /** The header block: the status code from its first line, and the headers from the lines after it. */
  function ParseHead(headerPart: string): (r: Try<(int, map<string, string>)>)
    ensures r.Ok? ==> StatusCode(StatusLine(headerPart)) == Ok(r.value.0)
    ensures r.Ok? ==> HeaderText(headerPart).Ok?
                      && r.value.1 == AddHeaders(StringUtils.Split(HeaderText(headerPart).value, CRLF), map[])
  {
    match StatusCode(StatusLine(headerPart))
    case Threw(e) => Threw(e)
    case Ok(status) =>
      match HeaderText(headerPart)
      case Threw(e) => Threw(e)
      case Ok(text) => Ok((status, AddHeaders(StringUtils.Split(text, CRLF), map[])))
  }

  /** The first line of the header block, or all of it without a line end. */
  function StatusLine(headerPart: string): (r: string)
    ensures r <= headerPart && !Contains(r, CRLF)
  {
    match Find(headerPart, CRLF, 0)
    case None => FindContains(headerPart, CRLF); headerPart
    case Some(i) => NoEarlierLineEnd(headerPart, i); headerPart[..i]
  }

  lemma {:induction false} NoEarlierLineEnd(s: string, i: nat)
    requires Find(s, CRLF, 0) == Some(i)
    ensures !Contains(s[..i], CRLF)
  {
    FindSpec(s, CRLF, 0);
    forall j: nat | j <= i ensures !HasAt(s[..i], j, CRLF) {
      if HasAt(s[..i], j, CRLF) {
        assert s[..i][j..j + 2] == s[j..j + 2];
        assert HasAt(s, j, CRLF);
      }
    }
  }

  /**
   The parsing of the collected bytes: no bytes or no blank line is an error;
   otherwise the status code, the headers and the body after the first blank
   line, decoded when it is chunked. `error` is kept on success.
   */
  function ParseResponse(data: string, error: string): (r: Try<Response>)
    ensures data == [] ==> r == Ok(Response(0, [], map[], "No response received"))
    ensures data != [] && !Contains(data, BLANK_LINE) ==> r == Ok(Response(0, [], map[], "Invalid HTTP response"))
    ensures r.Ok? && data != [] && Contains(data, BLANK_LINE) ==> r.value.error == error
    ensures match Find(data, BLANK_LINE, 0)
            case None => true
            case Some(i) =>
              data != [] && r.Ok? && !Chunked(r.value.headers) ==> r.value.body == data[i + 4..]
  {
    FindContains(data, BLANK_LINE);
    if data == [] then Ok(Response(0, [], map[], "No response received"))
    else match Find(data, BLANK_LINE, 0)
      case None => Ok(Response(0, [], map[], "Invalid HTTP response"))
      case Some(headerEnd) =>
        match ParseHead(data[..headerEnd])
        case Threw(e) => Threw(e)
        case Ok(head) =>
          var body := data[headerEnd + 4..];
          if !Chunked(head.1) then Ok(Response(head.0, body, head.1, error))
          else match DecodeChunked(body, [])
            case Threw(e) => Threw(e)
            case Ok(decoded) => Ok(Response(head.0, decoded, head.1, error))
  }

  // ---------------------------------------------------------------------------
  // Chunked transfer coding
  // ---------------------------------------------------------------------------

  /**
   The chunk loop over what is left of the body: a size line in hexadecimal, that
   many bytes, a line end. It stops at the end of the body, at a size line
   without a line end, and at a size of zero or less.
   */
  function DecodeChunked(rest: string, acc: string): (r: Try<string>)
    ensures r.Ok? ==> acc <= r.value
    decreases |rest|
  {
    match ChunkTurn(rest)
    case Threw(e) => Threw(e)
    case Ok(Stop) => Ok(acc)
    case Ok(Last(piece)) => Ok(acc + piece)
    case Ok(Piece(piece, next)) => DecodeChunked(rest[next..], acc + piece)
  }

  /** What one turn of the chunk loop does: stop, take a last piece, or take a piece and go on at `next`. */
  datatype Turn = Stop | Last(piece: string) | Piece(piece: string, next: nat)

  /** One turn of the chunk loop on what is left of the body. */
  function ChunkTurn(rest: string): (t: Try<Turn>)
    ensures t.Ok? && t.value.Piece? ==> 0 < t.value.next < |rest|
  {
    if rest == [] then Ok(Stop)
    else match Find(rest, CRLF, 0)
      case None => Ok(Stop)
      case Some(lineEnd) =>
        match Stoi.Stoi(rest[..lineEnd], 16)
        case Threw(e) => Threw(e)
        case Ok(size) =>
          if size <= 0 then Ok(Stop)
          else
            var start := lineEnd + 2;
            var piece := rest[start..if start + size < |rest| then start + size else |rest|];
            var next := start + size + 2;
            if next >= |rest| then Ok(Last(piece)) else Ok(Piece(piece, next))
  }

  /** One chunk as a server sends it: size, line end, data, line end. */
  function ChunkOf(data: string): string {
    Hex(|data|) + CRLF + data + CRLF
  }

  /** The chunks, then the last chunk of size zero and the blank line. */
  function EncodeChunked(chunks: seq<string>): string
    decreases |chunks|
  {
    if chunks == [] then "0\r\n\r\n" else ChunkOf(chunks[0]) + EncodeChunked(chunks[1..])
  }

  function Concat(chunks: seq<string>): string
    decreases |chunks|
  {
    if chunks == [] then [] else chunks[0] + Concat(chunks[1..])
  }

  predicate SendableChunks(chunks: seq<string>) {
    forall i | 0 <= i < |chunks| :: 0 < |chunks[i]| < TWO31
  }

  /** Decoding a chunked body gives back the data of its chunks, whatever bytes they hold. */
  lemma {:induction false} ChunkedRoundTrip(chunks: seq<string>, acc: string)
    requires SendableChunks(chunks)
    ensures DecodeChunked(EncodeChunked(chunks), acc) == Ok(acc + Concat(chunks))
    decreases |chunks|
  {
    if chunks == [] {
      LastChunk(acc);
      assert acc + [] == acc;
    } else {
      var c, cs := chunks[0], chunks[1..];
      assert SendableChunks(cs) by {
        assert forall i | 0 <= i < |cs| :: cs[i] == chunks[i + 1];
      }
      assert 0 < |c| < TWO31 by {
        assert chunks[0] == c;
      }
      ChunkedRoundTrip(cs, acc + c);
      EncodedNotEmpty(cs);
      RoundTripStep(c, EncodeChunked(cs), Concat(cs), acc, EncodeChunked(chunks));
    }
  }

  /** A chunk in front of a body that decodes to `rest` adds its data in front of `rest`. */
  lemma {:induction false} RoundTripStep(c: string, tail: string, rest: string, acc: string, s: string)
    requires 0 < |c| < TWO31 && |tail| > 0 && s == ChunkOf(c) + tail
    requires DecodeChunked(tail, acc + c) == Ok(acc + c + rest)
    ensures DecodeChunked(s, acc) == Ok(acc + (c + rest))
  {
    ChunkStep(c, tail, acc, s);
    Assoc(acc, c, rest);
  }

  lemma {:induction false} Assoc(a: string, b: string, c: string)
    ensures a + b + c == a + (b + c)
  {
  }

  lemma {:induction false} EncodedNotEmpty(chunks: seq<string>)
    ensures |EncodeChunked(chunks)| > 0
  {
    if chunks != [] {
      assert |ChunkOf(chunks[0])| > 0;
    }
  }

  /** The last chunk ends the loop. */
  lemma {:induction false} LastChunk(acc: string)
    ensures DecodeChunked("0\r\n\r\n", acc) == Ok(acc)
  {
    var s := "0\r\n\r\n";
    NotHasAt(s, 0, CRLF);
    assert s[1..3] == CRLF;
    FindFirstAt(s, CRLF, 0, 1);
    assert s[..1] == "0" == Hex(0) + [];
    StoiOfHex(0, []);
  }

  /** A chunk that ends before the body does: the turn takes its data and goes on after its line end. */
  lemma {:induction false} TurnOfChunk(rest: string, lineEnd: nat, size: int)
    requires Find(rest, CRLF, 0) == Some(lineEnd) && Stoi.Stoi(rest[..lineEnd], 16) == Ok(size)
    requires size > 0 && lineEnd + 2 + size + 2 < |rest|
    ensures ChunkTurn(rest) == Ok(Piece(rest[lineEnd + 2..lineEnd + 2 + size], lineEnd + size + 4))
  {
  }

  /** A turn that takes a piece: the loop goes on after it. */
  lemma {:induction false} DecodeStep(rest: string, acc: string, piece: string, next: nat)
    requires ChunkTurn(rest) == Ok(Piece(piece, next))
    ensures next <= |rest| && DecodeChunked(rest, acc) == DecodeChunked(rest[next..], acc + piece)
  {
  }

  /** One chunk is read whole and the loop goes on with what follows it. */
  lemma {:induction false} ChunkStep(data: string, tail: string, acc: string, s: string)
    requires 0 < |data| < TWO31 && |tail| > 0 && s == ChunkOf(data) + tail
    ensures DecodeChunked(s, acc) == DecodeChunked(tail, acc + data)
  {
    var h := Hex(|data|);
    ChunkLayout(h, data, tail, s);
    StoiOfHex(|data|, []);
    assert h + [] == h;
    ChunkRead(s, h, data, tail, acc);
  }

  /** A size line h, then the data, a line end and the rest: the loop takes the data and goes on. */
  lemma {:induction false} ChunkRead(s: string, h: string, data: string, tail: string, acc: string)
    requires Find(s, CRLF, 0) == Some(|h|) && s[..|h|] == h && Stoi.Stoi(h, 16) == Ok(|data|) && |data| > 0
    requires |h| + |data| + 4 < |s| && s[|h| + 2..|h| + 2 + |data|] == data && s[|h| + |data| + 4..] == tail
    ensures DecodeChunked(s, acc) == DecodeChunked(tail, acc + data)
  {
    TurnOfChunk(s, |h|, |data|);
    DecodeStep(s, acc, data, |h| + |data| + 4);
  }

  /** Where the pieces of a chunk sit. */
  lemma {:induction false} ChunkLayout(h: string, data: string, tail: string, s: string)
    requires h == Hex(|data|) && s == ChunkOf(data) + tail
    ensures Find(s, CRLF, 0) == Some(|h|) && s[..|h|] == h
    ensures s[|h| + 2..|h| + 2 + |data|] == data && s[|h| + |data| + 4..] == tail
  {
    assert s == h + CRLF + data + CRLF + tail;
    assert s[..|h|] == h;
    assert s[|h|..|h| + 2] == CRLF;
    forall j | 0 <= j < |h| ensures !HasAt(s, j, CRLF) {
      assert s[j] == h[j] && IsHexDigit(h[j]);
      NotHasAt(s, j, CRLF);
    }
    FindFirstAt(s, CRLF, 0, |h|);
    assert s[|h| + 2..|h| + 2 + |data|] == data;
    assert s[|h| + |data| + 4..] == tail;
  }

  /** A negative size ends the loop. */
  lemma {:induction false} NegativeSizeStops(acc: string)
    ensures DecodeChunked("-6\r\n", acc) == Ok(acc)
  {
    NegativeSizeLine();
    StoiReadsSign();
  }

  /** The size line of "-6\r\n" ends at 2. */
  lemma {:induction false} NegativeSizeLine()
    ensures Find("-6\r\n", CRLF, 0) == Some(2) && "-6\r\n"[..2] == "-6" && "-6\r\n"[0..2] == "-6"
  {
    var s := "-6\r\n";
    NotHasAt(s, 0, CRLF);
    NotHasAt(s, 1, CRLF);
    assert s[2..4] == CRLF;
    FindFirstAt(s, CRLF, 0, 2);
  }

  /**
   The chunk loop as written: positions in `size_t`; `chunkSize + 2` is an `int`
   sum, wrapped to 32 bits, and a negative step is converted to `size_t`.
   */
  datatype Decoding = Finished(result: Try<string>) | Spins

  function DecodeChunkedAsWritten(body: string, pos: nat, acc: string, fuel: nat): (r: Decoding)
    decreases fuel
  {
    if pos >= |body| then Finished(Ok(acc))
    else match Find(body, CRLF, pos)
      case None => Finished(Ok(acc))
      case Some(lineEnd) =>
        match Stoi.Stoi(body[pos..lineEnd], 16)
        case Threw(e) => Finished(Threw(e))
        case Ok(size) =>
          if size == 0 then Finished(Ok(acc))
          else
            var start := lineEnd + 2;
            var piece := if size < 0 || start + size >= |body| then body[start..] else body[start..start + size];
            var next := (start + I32(U32(size + 2))) % TWO64;
            if fuel == 0 then Spins else DecodeChunkedAsWritten(body, next, acc + piece, fuel - 1)
  }

  /** As written, the body "-6\r\n" sends the loop back to where it started, so it never ends. */
  lemma {:induction false} NegativeSizeSpins(acc: string, fuel: nat)
    ensures DecodeChunkedAsWritten("-6\r\n", 0, acc, fuel) == Spins
    decreases fuel
  {
    NegativeSizeLine();
    StoiReadsSign();
    assert U32(-6 + 2) == TWO32 - 4;
    assert I32(U32(-6 + 2)) == -4;
    assert (4 + -4) % TWO64 == 0;
    assert "-6\r\n"[4..] == [] && acc + [] == acc;
    if fuel > 0 {
      NegativeSizeSpins(acc, fuel - 1);
    }
  }

  // ---------------------------------------------------------------------------
  // DoRequest and Get
  // ---------------------------------------------------------------------------

  /** The outcomes of the socket calls: resolution, connection, sending, and what each receive returned. */
  datatype Net = Net(resolves: bool, connects: bool, sends: bool, received: seq<string>)

  const HTTPS_UNSUPPORTED: string := "HTTPS not fully implemented - use HTTP for now"

  /**
   DoRequest: each failed step ends with its message; an https request only
   records that TLS is missing and goes on in plain text.
   */
  function DoRequest(https: bool, net: Net): (r: Try<Response>)
    ensures !net.resolves ==> r == Ok(Response(0, [], map[], "DNS resolution failed"))
    ensures net.resolves && !net.connects ==> r == Ok(Response(0, [], map[], "Connection failed"))
    ensures net.resolves && net.connects && !net.sends ==> r == Ok(Response(0, [], map[], "Send failed"))
    ensures net.resolves && net.connects && net.sends ==> r == ParseResponse(Gather(net.received), if https then HTTPS_UNSUPPORTED else [])
  {
    if !net.resolves then Ok(Response(0, [], map[], "DNS resolution failed"))
    else if !net.connects then Ok(Response(0, [], map[], "Connection failed"))
    else
      var error := if https then HTTPS_UNSUPPORTED else [];
      if !net.sends then Ok(Response(0, [], map[], "Send failed"))
      else ParseResponse(Gather(net.received), error)
  }

  /** Get: the URL parsed, the request built for its host and path, and the exchange. */
  function Get(url: string, headers: seq<(string, string)>, net: Net): (r: (Try<Response>, Option<(string, int, string)>))
    ensures ParseUrl(url).Ok? && !ParseUrl(url).value.ok ==> r == (Ok(Response(0, [], map[], "Invalid URL")), None)
    ensures r.1.Some? ==> ParseUrl(url).Ok? && ParseUrl(url).value.ok
                          && r.1.value == (ParseUrl(url).value.host, ParseUrl(url).value.port,
                                           BuildRequest(ParseUrl(url).value.path, ParseUrl(url).value.host, headers))
  {
    match ParseUrl(url)
    case Threw(e) => (Threw(e), None)
    case Ok(u) =>
      if !u.ok then (Ok(Response(0, [], map[], "Invalid URL")), None)
      else (DoRequest(u.https, net), Some((u.host, u.port, BuildRequest(u.path, u.host, headers))))
  }
}
