/** The download client of cliente.c.  Name resolution, the connection and
    the output file are replaced by inputs: whether the host resolves,
    whether `connect` succeeds, the bytes the first `read` returned, the
    chunks later reads return, and whether `fopen` succeeds. */
module Client {
  import opened CStrings

  /** `BUFFER_SIZE`: the first read takes at most 2047 bytes, later ones at most 2048. */
  const BufferSize := 2048

  /** `char request[2048]` in `main`. */
  const RequestSize := 2048

  const Scheme := "http://"

  datatype UrlTarget = UrlTarget(host: CString, port: nat, path: CString)

  // ----- URL parsing (two sscanf forms) -----

  /** Where a `%<width>[^stop]` conversion that starts at `i` stops. */
  function ScanSetEnd(s: string, i: nat, width: nat, stop: char): (j: nat)
    requires i <= |s|
    ensures i <= j <= |s| && j - i <= width
    ensures forall k :: i <= k < j ==> s[k] != stop
    ensures j - i == width || j == |s| || s[j] == stop
    decreases width
  {
    if width == 0 || i == |s| || s[i] == stop then i else ScanSetEnd(s, i + 1, width - 1, stop)
  }

  lemma ScanSetEndAt(s: string, i: nat, width: nat, stop: char, j: nat)
    requires i <= j <= |s| && j - i <= width
    requires forall k :: i <= k < j ==> s[k] != stop
    requires j - i == width || j == |s| || s[j] == stop
    ensures ScanSetEnd(s, i, width, stop) == j
  {
  }

  /** Where the decimal digits that start at `i` end. */
  function DigitsEnd(s: string, i: nat): (j: nat)
    requires i <= |s|
    ensures i <= j <= |s|
    ensures forall k :: i <= k < j ==> IsDigit(s[k])
    ensures j == |s| || !IsDigit(s[j])
    decreases |s| - i
  {
    if i == |s| || !IsDigit(s[i]) then i else DigitsEnd(s, i + 1)
  }

  lemma DigitsEndAt(s: string, i: nat, j: nat)
    requires i <= j <= |s|
    requires forall k :: i <= k < j ==> IsDigit(s[k])
    requires j == |s| || !IsDigit(s[j])
    ensures DigitsEnd(s, i) == j
  {
  }

  lemma AllDigitsSlice(s: string, i: nat, j: nat)
    requires i <= j <= |s|
    requires forall k :: i <= k < j ==> IsDigit(s[k])
    ensures AllDigits(s[i..j])
  {
    forall k | 0 <= k < j - i ensures IsDigit(s[i..j][k]) {
      assert s[i..j][k] == s[i + k];
    }
  }

  lemma StopNotInSlice(s: string, i: nat, j: nat, stop: char)
    requires i <= j <= |s|
    requires forall k :: i <= k < j ==> s[k] != stop
    ensures stop !in s[i..j]
  {
    forall k | 0 <= k < j - i ensures s[i..j][k] != stop {
      assert s[i..j][k] == s[i + k];
    }
  }

  lemma SchemeThenSlices(url: string, h1: nat, p1: nat)
    requires Scheme <= url && 7 <= h1 <= p1 <= |url|
    ensures Scheme + url[7..h1] + url[h1..p1] == url[..p1]
  {
    assert url[..7] == Scheme;
    assert url[..p1] == url[..7] + url[7..h1] + url[h1..p1];
  }

  /** The first URL form: after the scheme, up to 99 characters other than
      `:` as the host, a `:`, a port written in decimal digits, then up to
      199 characters other than a newline as the path; all three must be
      non-empty. */
  function ScanWithPort(url: CString): (r: Option<UrlTarget>)
    ensures r.Some? ==> Scheme + r.value.host + [':'] <= url
    ensures r.Some? ==> 1 <= |r.value.host| <= 99 && ':' !in r.value.host
    ensures r.Some? ==> 1 <= |r.value.path| <= 199 && '\n' !in r.value.path
  {
    if !(Scheme <= url) then None
    else
      var h1 := ScanSetEnd(url, 7, 99, ':');
      if h1 == 7 || h1 == |url| || url[h1] != ':' then None
      else
        var d1 := DigitsEnd(url, h1 + 1);
        if d1 == h1 + 1 then None
        else
          var p1 := ScanSetEnd(url, d1, 199, '\n');
          if p1 == d1 then None
          else
            AllDigitsSlice(url, h1 + 1, d1);
            SliceIsCString(url, 7, h1);
            SliceIsCString(url, d1, p1);
            StopNotInSlice(url, 7, h1, ':');
            StopNotInSlice(url, d1, p1, '\n');
            SchemeThenSlices(url, h1, h1 + 1);
            Some(UrlTarget(url[7..h1], DigitsValue(url[h1 + 1..d1]), url[d1..p1]))
  }

  /** The second URL form: after the scheme, up to 99 characters other
      than `/` as the host, then up to 199 characters other than a newline
      as the path, both non-empty; the port stays 80. */
  function ScanWithoutPort(url: CString): (r: Option<UrlTarget>)
    ensures r.Some? ==> Scheme + r.value.host + r.value.path <= url
    ensures r.Some? ==> 1 <= |r.value.host| <= 99 && '/' !in r.value.host && r.value.port == 80
    ensures r.Some? ==> 1 <= |r.value.path| <= 199 && '\n' !in r.value.path
  {
    if !(Scheme <= url) then None
    else
      var h1 := ScanSetEnd(url, 7, 99, '/');
      if h1 == 7 then None
      else
        var p1 := ScanSetEnd(url, h1, 199, '\n');
        if p1 == h1 then None
        else
          SliceIsCString(url, 7, h1);
          SliceIsCString(url, h1, p1);
          StopNotInSlice(url, 7, h1, '/');
          StopNotInSlice(url, h1, p1, '\n');
          SchemeThenSlices(url, h1, p1);
          Some(UrlTarget(url[7..h1], 80, url[h1..p1]))
  }

  /** The URL parser: the form with a port first, then the one without, whose
      port is 80; None when neither matches and the program exits. */
  function ParseUrl(url: CString): (r: Option<UrlTarget>)
    ensures r.Some? ==> Scheme <= url
    ensures r.Some? ==> 1 <= |r.value.host| <= 99 && 1 <= |r.value.path| <= 199 && '\n' !in r.value.path
    ensures r.Some? ==> ':' !in r.value.host || ('/' !in r.value.host && r.value.port == 80)
  {
    match ScanWithPort(url)
    case Some(t) => Some(t)
    case None => ScanWithoutPort(url)
  }

  /** The first form matches a URL whose host ends at the first `:` within
      99 characters, followed by digits and a non-empty path. */
  lemma ScanWithPortAt(url: CString, h1: nat, d1: nat)
    requires Scheme <= url
    requires 7 < h1 && h1 + 1 < d1 < |url| && h1 - 7 <= 99 && |url| - d1 <= 199
    requires forall k :: 7 <= k < h1 ==> url[k] != ':'
    requires url[h1] == ':'
    requires forall k :: h1 + 1 <= k < d1 ==> IsDigit(url[k])
    requires !IsDigit(url[d1])
    requires forall k :: d1 <= k < |url| ==> url[k] != '\n'
    ensures ScanWithPort(url).Some?
    ensures ScanWithPort(url).value.host == url[7..h1]
    ensures ScanWithPort(url).value.path == url[d1..]
    ensures AllDigits(url[h1 + 1..d1])
    ensures ScanWithPort(url).value.port == DigitsValue(url[h1 + 1..d1])
  {
    PortFormStops(url, h1, d1);
    AllDigitsSlice(url, h1 + 1, d1);
    assert url[d1..|url|] == url[d1..];
  }

  lemma PortFormStops(url: CString, h1: nat, d1: nat)
    requires 7 < h1 && h1 + 1 < d1 < |url| && h1 - 7 <= 99 && |url| - d1 <= 199
    requires forall k :: 7 <= k < h1 ==> url[k] != ':'
    requires url[h1] == ':'
    requires forall k :: h1 + 1 <= k < d1 ==> IsDigit(url[k])
    requires !IsDigit(url[d1])
    requires forall k :: d1 <= k < |url| ==> url[k] != '\n'
    ensures ScanSetEnd(url, 7, 99, ':') == h1 && DigitsEnd(url, h1 + 1) == d1
    ensures ScanSetEnd(url, d1, 199, '\n') == |url|
  {
    ScanSetEndAt(url, 7, 99, ':', h1);
    DigitsEndAt(url, h1 + 1, d1);
    ScanSetEndAt(url, d1, 199, '\n', |url|);
  }

  /** Where the pieces of `http://<host>:<digits><path>` sit. */
  lemma PortUrlLayout(host: CString, digits: string, path: CString)
    requires ':' !in host && '\n' !in path && AllDigits(digits)
    ensures var url, h1 := Scheme + host + ":" + digits + path, 7 + |host|;
            url[..7] == Scheme && url[7..h1] == host && url[h1] == ':'
            && url[h1 + 1..h1 + 1 + |digits|] == digits && url[h1 + 1 + |digits|..] == path
    ensures var url, h1 := Scheme + host + ":" + digits + path, 7 + |host|;
            (forall k :: 7 <= k < h1 ==> url[k] != ':')
            && (forall k :: h1 + 1 <= k < h1 + 1 + |digits| ==> IsDigit(url[k]))
            && (forall k :: h1 + 1 + |digits| <= k < |url| ==> url[k] != '\n')
  {
    var front := Scheme + host;
    var middle := front + ":" + digits;
    var url := middle + path;
    var h1 := 7 + |host|;
    var d1 := h1 + 1 + |digits|;
    forall k | 7 <= k < h1 ensures url[k] != ':' {
      assert url[k] == front[k] == host[k - 7];
      assert host[k - 7] in host;
    }
    forall k | h1 + 1 <= k < d1 ensures IsDigit(url[k]) {
      assert url[k] == middle[k] == digits[k - h1 - 1];
    }
    forall k | d1 <= k < |url| ensures url[k] != '\n' {
      assert url[k] == path[k - d1];
      assert path[k - d1] in path;
    }
    assert url[h1] == middle[h1] == ':';
  }

  /** A URL with a port is read back whole.  The host may contain `/`: in
      `http://h/a:80/b` the host is `h/a`.  The port is at least 1, so its
      digits start with 1 to 9 and `%i` reads them as decimal, and it fits
      an `int`. */
  lemma ParseUrlWithPort(host: CString, port: nat, path: CString)
    requires 1 <= |host| <= 99 && ':' !in host
    requires 1 <= port <= 0x7FFF_FFFF
    requires 1 <= |path| <= 199 && '\n' !in path && !IsDigit(path[0])
    ensures ParseUrl(Scheme + host + ":" + Decimal(port) + path) == Some(UrlTarget(host, port, path))
  {
    var digits := Decimal(port);
    var url := Scheme + host + ":" + digits + path;
    var h1 := 7 + |host|;
    PortUrlLayout(host, digits, path);
    assert url[h1 + 1 + |digits|] == path[0];
    ScanWithPortAt(url, h1, h1 + 1 + |digits|);
    DecimalRoundTrip(port);
  }

  /** The second form matches `http://`, a host of up to 99 characters
      without `/`, and a non-empty path of up to 199 characters without a newline. */
  lemma ScanWithoutPortAt(url: CString, h1: nat)
    requires Scheme <= url
    requires 7 < h1 < |url| && h1 - 7 <= 99 && |url| - h1 <= 199
    requires forall k :: 7 <= k < h1 ==> url[k] != '/'
    requires url[h1] == '/'
    requires forall k :: h1 <= k < |url| ==> url[k] != '\n'
    ensures ScanWithoutPort(url) == Some(UrlTarget(url[7..h1], 80, url[h1..]))
  {
    ScanSetEndAt(url, 7, 99, '/', h1);
    ScanSetEndAt(url, h1, 199, '\n', |url|);
    assert url[h1..|url|] == url[h1..];
  }

  /** The first form fails on a URL without `:` after the scheme. */
  lemma ScanWithPortNeedsColon(url: CString)
    requires Scheme <= url
    requires forall k :: 7 <= k < |url| ==> url[k] != ':'
    ensures ScanWithPort(url) == None
  {
  }

  /** A URL without a port, host and path free of `:`, gets port 80. */
  lemma ParseUrlWithoutPort(host: CString, path: CString)
    requires 1 <= |host| <= 99 && ':' !in host && '/' !in host
    requires 1 <= |path| <= 199 && '\n' !in path && ':' !in path && path[0] == '/'
    ensures ParseUrl(Scheme + host + path) == Some(UrlTarget(host, 80, path))
  {
    var front := Scheme + host;
    var url := front + path;
    var h1 := 7 + |host|;
    assert url[..7] == Scheme;
    forall k | 7 <= k < |url| ensures url[k] != ':' && (k < h1 ==> url[k] != '/') && (k >= h1 ==> url[k] != '\n') {
      if k < h1 {
        assert url[k] == front[k] == host[k - 7];
        assert host[k - 7] in host;
      } else {
        assert url[k] == path[k - h1];
        assert path[k - h1] in path;
      }
    }
    ScanWithPortNeedsColon(url);
    assert url[h1] == '/';
    ScanWithoutPortAt(url, h1);
    assert url[7..h1] == host;
    assert url[h1..] == path;
  }

  /** Without a path neither form matches, so `http://h` is refused. */
  lemma ParseUrlNeedsPath(host: CString)
    requires |host| <= 99 && ':' !in host && '/' !in host
    ensures ParseUrl(Scheme + host) == None
  {
    var url := Scheme + host;
    forall k | 7 <= k < |url| ensures url[k] != ':' && url[k] != '/' {
      assert url[k] == host[k - 7];
      assert host[k - 7] in host;
    }
    assert url[..7] == Scheme;
    ScanSetEndAt(url, 7, 99, ':', |url|);
    ScanSetEndAt(url, 7, 99, '/', |url|);
  }

  /** Anything that does not start with `http://` is refused. */
  lemma ParseUrlNeedsScheme(url: CString)
    requires !(Scheme <= url)
    ensures ParseUrl(url) == None
  {
  }

  // ----- Output file name -----

  /** The text after the last `/` of the path, or `index.html` when there is
      no `/` or nothing follows the last one. */
  function OutputName(path: CString): (r: CString)
    ensures r != [] && '/' !in r
    ensures '/' !in path ==> r == "index.html"
    ensures path != [] && path[|path| - 1] == '/' ==> r == "index.html"
    ensures '/' in path && path[|path| - 1] != '/' ==> |r| < |path| && path[|path| - |r| - 1] == '/' && path[|path| - |r|..] == r
  {
    match LastIndexOf(path, '/')
    case None => "index.html"
    case Some(i) =>
      if i + 1 == |path| then "index.html"
      else
        SliceIsCString(path, i + 1, |path|);
        path[i + 1..]
  }

  // ----- Request -----

  /** The GET request for a path on a host: the request line, a `Host`
      header, `Connection: close` and the blank line, 44 bytes around the
      two fields. */
  function FormatRequest(host: CString, path: CString): (r: string)
    ensures |r| == 44 + |host| + |path|
  {
    "GET " + path + " HTTP/1.1\r\nHost: " + host + "\r\nConnection: close\r\n\r\n"
  }

  /** Given the widths the parser allows, the request always fits `char request[2048]`. */
  lemma RequestFitsBuffer(url: CString)
    requires ParseUrl(url).Some?
    ensures |FormatRequest(ParseUrl(url).value.host, ParseUrl(url).value.path)| < RequestSize
  {
  }

  // ----- Header framing -----

  const Terminator := "\r\n\r\n"

  /** The header block (up to and including the first blank line) and the
      part of the body that came in the same read. */
  datatype Framed = Framed(header: string, body: string)

  datatype ClientError =
    | MalformedUrl | HostNotFound | ConnectFailed | NoResponse | MalformedHeader | OutputCreateFailed

  /** The first read, NUL-terminated, searched with `strstr` for the blank line. */
  function FrameResponse(buf: string): (r: Result<Framed, ClientError>)
    ensures buf == [] <==> r == Failure(NoResponse)
    ensures r.Success? ==> r.value.header + r.value.body == buf
    ensures r.Success? ==> |r.value.header| >= 4 && r.value.header[|r.value.header| - 4..] == Terminator
    ensures r.Success? ==> '\0' !in r.value.header
    ensures r.Success? ==> forall j :: 0 <= j < |r.value.header| - 4 ==> !OccursAt(buf, Terminator, j)
    ensures r.Failure? && buf != [] ==> r.error == MalformedHeader && forall j :: !OccursAt(CStr(buf), Terminator, j)
  {
    if buf == [] then Failure(NoResponse)
    else
      var s := CStr(buf);
      match FindFirst(s, Terminator)
      case None => Failure(MalformedHeader)
      case Some(i) =>
        FirstBlankLineInBuffer(buf, s, i);
        Success(Framed(buf[..i + 4], buf[i + 4..]))
  }

  /** The first blank line of a NUL-free prefix of a buffer is the first one
      of the buffer, and everything up to it is NUL-free. */
  lemma FirstBlankLineInBuffer(buf: string, s: CString, i: nat)
    requires s <= buf
    requires OccursAt(s, Terminator, i)
    requires forall j :: 0 <= j < i ==> !OccursAt(s, Terminator, j)
    ensures i + 4 <= |buf| && buf[..i + 4][i..] == Terminator && '\0' !in buf[..i + 4]
    ensures forall j :: 0 <= j < i ==> !OccursAt(buf, Terminator, j)
  {
    assert |Terminator| == 4;
    assert buf[..i + 4] == s[..i + 4];
    SliceIsCString(s, 0, i + 4);
    assert s[0..i + 4] == s[..i + 4];
    forall j | 0 <= j < i ensures !OccursAt(buf, Terminator, j) {
      assert !OccursAt(s, Terminator, j);
      assert buf[j..j + 4] == s[j..j + 4];
    }
  }

  /** A read that starts with a NUL-free header block ending at its first
      blank line is split exactly there: the header, then the rest of the read
      as body prefix, nothing lost or repeated. */
  lemma FrameAtFirstBlankLine(header: CString, rest: string)
    requires |header| >= 4 && header[|header| - 4..] == Terminator
    requires forall j :: 0 <= j < |header| - 4 ==> !OccursAt(header, Terminator, j)
    ensures FrameResponse(header + rest) == Success(Framed(header, rest))
  {
    var buf := header + rest;
    var i := |header| - 4;
    CStrOfCString(header, rest);
    var s := CStr(buf);
    assert s == header + CStr(rest);
    assert |Terminator| == 4;
    assert s[..|header|] == header;
    assert OccursAt(s, Terminator, i);
    forall j | 0 <= j < i ensures !OccursAt(s, Terminator, j) {
      assert !OccursAt(header, Terminator, j);
      assert s[j..j + 4] == header[j..j + 4];
    }
    assert FindFirst(s, Terminator) == Some(i);
    assert buf[..i + 4] == header && buf[i + 4..] == rest;
  }

  const StatusOk := "HTTP/1.1 200 OK"

  /** The status check compares the first 15 bytes of the header buffer
      with the 200 status line; a NUL before them fails the comparison. */
  predicate StatusIsOk(buf: string)
    ensures StatusIsOk(buf) <==> StatusOk <= buf
  {
    StatusOk <= CStr(buf)
  }

  // ----- The whole run -----

  /** What the environment answers: name resolution, `connect`, the first
      `read` (empty for a return value <= 0), the later reads (an empty chunk
      for a return value <= 0) and `fopen`. */
  datatype Network = Network(hostFound: bool, connects: bool, firstRead: string, laterReads: seq<string>, outputOpens: bool)

  datatype SavedFile = SavedFile(name: CString, content: string)

  /** What one run produces: the request written to the socket (empty when
      none was), whether the non-200 warning was printed, and the saved file
      or the error the program exits with. */
  datatype Outcome = Outcome(request: string, warned: bool, result: Result<SavedFile, ClientError>)

  function ClientRun(url: CString, net: Network): (r: Outcome)
    ensures r.request == [] <==> ParseUrl(url).None? || !net.hostFound || !net.connects
    ensures r.result.Success? ==> ParseUrl(url).Some? && r.result.value.name == OutputName(ParseUrl(url).value.path)
    ensures r.warned ==> FrameResponse(net.firstRead).Success? && !StatusIsOk(net.firstRead)
  {
    match ParseUrl(url)
    case None => Outcome([], false, Failure(MalformedUrl))
    case Some(target) =>
      if !net.hostFound then Outcome([], false, Failure(HostNotFound))
      else if !net.connects then Outcome([], false, Failure(ConnectFailed))
      else
        var request := FormatRequest(target.host, target.path);
        match FrameResponse(net.firstRead)
        case Failure(e) => Outcome(request, false, Failure(e))
        case Success(framed) =>
          var warned := !StatusIsOk(net.firstRead);
          if !net.outputOpens then Outcome(request, warned, Failure(OutputCreateFailed))
          else Outcome(request, warned, Success(SavedFile(OutputName(target.path), framed.body + Drain(net.laterReads))))
  }

  /** The client saves a file exactly when every step succeeds, and a status
      other than 200 only adds the warning. */
  lemma ClientSavesExactlyWhen(url: CString, net: Network)
    ensures ClientRun(url, net).result.Success?
        <==> ParseUrl(url).Some? && net.hostFound && net.connects
             && FrameResponse(net.firstRead).Success? && net.outputOpens
    ensures ClientRun(url, net).warned
        <==> ParseUrl(url).Some? && net.hostFound && net.connects
             && FrameResponse(net.firstRead).Success? && !StatusIsOk(net.firstRead)
  {
  }

  /** The saved file is the body prefix of the first read followed by every
      later chunk up to end of file, and it is named after the path. */
  lemma SavedFileIsBody(url: CString, net: Network)
    requires ClientRun(url, net).result.Success?
    ensures var framed := FrameResponse(net.firstRead).value;
            var saved := ClientRun(url, net).result.value;
            net.firstRead == framed.header + net.firstRead[|framed.header|..]
            && saved.content == net.firstRead[|framed.header|..] + Drain(net.laterReads)
            && saved.name == OutputName(ParseUrl(url).value.path)
  {
  }

  /** A failed or empty first read, or a missing blank line, ends the run
      before the output file is touched. */
  lemma NoFileWithoutHeader(url: CString, net: Network)
    requires FrameResponse(net.firstRead).Failure?
    ensures ClientRun(url, net).result.Failure?
    ensures ClientRun(url, net).result.error in {MalformedUrl, HostNotFound, ConnectFailed, NoResponse, MalformedHeader}
  {
  }

  /** The writes to the output file: the body prefix, then every later
      chunk until a read returns 0 or less. */
  method SaveBody(prefix: string, chunks: seq<string>) returns (file: string)
    ensures file == prefix + Drain(chunks)
  {
    file := prefix;
    var i := 0;
    while i < |chunks| && chunks[i] != []
      invariant 0 <= i <= |chunks|
      invariant file + Drain(chunks[i..]) == prefix + Drain(chunks)
    {
      DrainStep(chunks, i);
      AppendAssoc(file, chunks[i], Drain(chunks[i + 1..]));
      file := file + chunks[i];
      i := i + 1;
    }
    DrainEnd(chunks, i);
    assert file + [] == file;
  }

  /** `main` after argument checking: parse, connect, send, frame, save. */
  method RunClient(url: CString, net: Network) returns (outcome: Outcome)
    ensures outcome == ClientRun(url, net)
  {
    var target := ParseUrl(url);
    if target.None? {
      return Outcome([], false, Failure(MalformedUrl));
    }
    var host, path := target.value.host, target.value.path;
    if !net.hostFound {
      return Outcome([], false, Failure(HostNotFound));
    }
    if !net.connects {
      return Outcome([], false, Failure(ConnectFailed));
    }
    var request := FormatRequest(host, path);
    var buf := net.firstRead;
    if |buf| == 0 {
      return Outcome(request, false, Failure(NoResponse));
    }
    var framed := FrameResponse(buf);
    if framed.Failure? {
      return Outcome(request, false, Failure(MalformedHeader));
    }
    var warned := !StatusIsOk(buf);
    var bodyStart := |framed.value.header|;
    if !net.outputOpens {
      return Outcome(request, warned, Failure(OutputCreateFailed));
    }
    var file := SaveBody(buf[bodyStart..], net.laterReads);
    outcome := Outcome(request, warned, Success(SavedFile(OutputName(path), file)));
  }
}
