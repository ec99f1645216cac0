/** The two programs of the repository put end to end: what the client sends
    the server reads back, and what the server sends for a file the client
    saves, however the bytes are split across reads. */
module Transfer {
  import opened CStrings
  import Server
  import Client

  /** A header line: it holds no CR, which could start the blank line early,
      and no NUL, which would end the C string early. */
  predicate OneLine(l: string)
  {
    l != [] && '\r' !in l && '\0' !in l
  }

  /** Printable ASCII only. */
  predicate Printable(l: string)
  {
    forall k :: 0 <= k < |l| ==> ' ' <= l[k] <= '~'
  }

  lemma PrintableIsOneLine(l: string)
    requires l != [] && Printable(l)
    ensures OneLine(l)
  {
    forall k | 0 <= k < |l| ensures l[k] != '\r' && l[k] != '\0' {
    }
  }

  /** Header lines, each followed by CR LF, then the blank line. */
  function HeaderBlock(lines: seq<string>): string
  {
    if lines == [] then "\r\n" else lines[0] + "\r\n" + HeaderBlock(lines[1..])
  }

  /** A last header line followed by the blank line holds no earlier blank line. */
  lemma LastLineBlock(l: string)
    requires OneLine(l)
    ensures var b := l + "\r\n" + "\r\n";
            (forall j :: 0 <= j < |b| - 4 ==> !OccursAt(b, Client.Terminator, j)) && b[|b| - 4..] == Client.Terminator
  {
    var b := l + "\r\n" + "\r\n";
    forall j | 0 <= j < |b| - 4 ensures !OccursAt(b, Client.Terminator, j) {
      assert b[j] == l[j];
      assert l[j] in l;
      assert b[j..j + 4][0] == b[j];
    }
  }

  /** A header line put in front of a block that starts with a line and holds
      no early blank line adds none. */
  lemma LineBeforeBlock(l: string, rest: string)
    requires OneLine(l) && |rest| >= 4 && rest[0] != '\r'
    requires forall j :: 0 <= j < |rest| - 4 ==> !OccursAt(rest, Client.Terminator, j)
    ensures var b := l + "\r\n" + rest;
            (forall j :: 0 <= j < |b| - 4 ==> !OccursAt(b, Client.Terminator, j)) && b[|b| - 4..] == rest[|rest| - 4..]
  {
    var b := l + "\r\n" + rest;
    var n := |l|;
    forall j | 0 <= j < |b| - 4 ensures !OccursAt(b, Client.Terminator, j) {
      if j < n {
        assert b[j] == l[j];
        assert l[j] in l;
        assert b[j..j + 4][0] == b[j];
      } else if j == n {
        assert b[j..j + 4][2] == rest[0];
      } else if j == n + 1 {
        assert b[j..j + 4][0] == '\n';
      } else {
        assert b[j..j + 4] == rest[j - n - 2..j - n + 2];
        assert !OccursAt(rest, Client.Terminator, j - n - 2);
      }
    }
  }

  /** A block of one-line headers ends in the blank line and holds no earlier one. */
  lemma {:induction false} HeaderBlockEndsAtBlankLine(lines: seq<string>)
    requires lines != []
    requires forall k :: 0 <= k < |lines| ==> OneLine(lines[k])
    ensures |HeaderBlock(lines)| >= 4
    ensures HeaderBlock(lines)[|HeaderBlock(lines)| - 4..] == Client.Terminator
    ensures forall j :: 0 <= j < |HeaderBlock(lines)| - 4 ==> !OccursAt(HeaderBlock(lines), Client.Terminator, j)
    ensures '\0' !in HeaderBlock(lines)
  {
    var l := lines[0];
    var rest := HeaderBlock(lines[1..]);
    assert HeaderBlock(lines) == l + "\r\n" + rest;
    if |lines| == 1 {
      assert rest == "\r\n";
      LastLineBlock(l);
    } else {
      HeaderBlockEndsAtBlankLine(lines[1..]);
      var next := lines[1];
      assert lines[1..][0] == next;
      assert rest == next + "\r\n" + HeaderBlock(lines[2..]);
      assert rest[0] == next[0] && next[0] in next;
      LineBeforeBlock(l, rest);
    }
    assert '\0' !in l && '\0' !in rest;
  }

  lemma TextTypesAreOneLine()
    ensures OneLine("text/html; charset=utf-8") && OneLine("text/css") && OneLine("application/javascript")
  {
    assert Printable("text/html; charset=utf-8");
    PrintableIsOneLine("text/html; charset=utf-8");
    assert Printable("text/css");
    PrintableIsOneLine("text/css");
    assert Printable("application/javascript");
    PrintableIsOneLine("application/javascript");
  }

  lemma ImageTypesAreOneLine()
    ensures OneLine("image/png") && OneLine("image/jpeg") && OneLine("image/gif") && OneLine("application/octet-stream")
  {
    assert Printable("image/png");
    PrintableIsOneLine("image/png");
    assert Printable("image/jpeg");
    PrintableIsOneLine("image/jpeg");
    assert Printable("image/gif");
    PrintableIsOneLine("image/gif");
    assert Printable("application/octet-stream");
    PrintableIsOneLine("application/octet-stream");
  }

  lemma MimeOfExtensionIsOneLine(ext: string)
    ensures OneLine(Server.MimeOfExtension(ext))
  {
    TextTypesAreOneLine();
    ImageTypesAreOneLine();
  }

  lemma MimeIsOneLine(name: CString)
    ensures OneLine(Server.GetMime(name))
  {
    match LastIndexOf(name, '.')
    case None =>
      ImageTypesAreOneLine();
    case Some(i) =>
      MimeOfExtensionIsOneLine(name[i..]);
  }

  lemma DecimalIsOneLine(n: nat)
    ensures OneLine(Decimal(n))
  {
    var d := Decimal(n);
    forall k | 0 <= k < |d| ensures d[k] != '\r' && d[k] != '\0' {
      assert IsDigit(d[k]);
    }
  }

  /** The four header lines `send_file` formats for a file. */
  function FileHeaderLines(name: CString, size: nat): seq<string>
  {
    [Client.StatusOk,
     "Content-Type: " + Server.GetMime(name),
     "Content-Length: " + Decimal(size),
     "Content-Disposition: attachment; filename=\"" + name + "\""]
  }

  lemma OneLineJoin(a: string, b: string)
    requires OneLine(a) && '\r' !in b && '\0' !in b
    ensures OneLine(a + b)
  {
  }

  lemma LiteralsAreOneLine()
    ensures OneLine(Client.StatusOk) && OneLine("Content-Type: ") && OneLine("Content-Length: ") && OneLine("\"")
  {
    assert Printable("HTTP/1.1 200 OK");
    PrintableIsOneLine("HTTP/1.1 200 OK");
    assert Printable("Content-Type: ");
    PrintableIsOneLine("Content-Type: ");
    assert Printable("Content-Length: ");
    PrintableIsOneLine("Content-Length: ");
    assert Printable("\"");
    PrintableIsOneLine("\"");
  }

  lemma DispositionIsOneLine()
    ensures OneLine("Content-Disposition: attachment; filename=\"")
  {
    assert Printable("Content-Disposition: attachment; filename=\"");
    PrintableIsOneLine("Content-Disposition: attachment; filename=\"");
  }

  lemma FileHeaderLinesAreOneLine(name: CString, size: nat)
    requires OneLine(name)
    ensures forall k :: 0 <= k < 4 ==> OneLine(FileHeaderLines(name, size)[k])
  {
    var mime, digits := Server.GetMime(name), Decimal(size);
    var t, l, p := "Content-Type: ", "Content-Length: ", "Content-Disposition: attachment; filename=\"";
    MimeIsOneLine(name);
    DecimalIsOneLine(size);
    LiteralsAreOneLine();
    DispositionIsOneLine();
    OneLineJoin(t, mime);
    OneLineJoin(l, digits);
    OneLineJoin(p, name);
    OneLineJoin(p + name, "\"");
    assert FileHeaderLines(name, size) == [Client.StatusOk, t + mime, l + digits, p + name + "\""];
  }

  lemma HeaderBlockOfFour(l0: string, l1: string, l2: string, l3: string)
    ensures HeaderBlock([l0, l1, l2, l3]) == l0 + "\r\n" + (l1 + "\r\n" + (l2 + "\r\n" + (l3 + "\r\n" + "\r\n")))
  {
    assert [l3][1..] == [];
    assert HeaderBlock([l3]) == l3 + "\r\n" + "\r\n";
    assert [l2, l3][1..] == [l3];
    assert HeaderBlock([l2, l3]) == l2 + "\r\n" + HeaderBlock([l3]);
    assert [l1, l2, l3][1..] == [l2, l3];
    assert HeaderBlock([l1, l2, l3]) == l1 + "\r\n" + HeaderBlock([l2, l3]);
    assert [l0, l1, l2, l3][1..] == [l1, l2, l3];
  }

  /** Regrouping the pieces of the header into lines. */
  lemma HeaderShape(a: string, c: string, t: string, m: string, l: string, d: string, p: string, n: string, q: string)
    ensures a + c + t + m + c + l + d + c + p + n + q + c + c
         == a + c + ((t + m) + c + ((l + d) + c + ((p + n + q) + c + c)))
  {
  }

  /** The file header, untruncated, is the block of those four lines. */
  lemma FileHeaderIsBlock(name: CString, size: nat)
    ensures Server.FullFileHeader(name, size) == HeaderBlock(FileHeaderLines(name, size))
  {
    var mime, digits := Server.GetMime(name), Decimal(size);
    var t, l, p := "Content-Type: ", "Content-Length: ", "Content-Disposition: attachment; filename=\"";
    HeaderBlockOfFour(Client.StatusOk, t + mime, l + digits, p + name + "\"");
    HeaderShape(Client.StatusOk, "\r\n", t, mime, l, digits, p, name, "\"");
    assert Server.FullFileHeader(name, size) == Client.StatusOk + "\r\n" + t + mime + "\r\n" + l + digits + "\r\n" + p + name + "\"" + "\r\n" + "\r\n";
    assert FileHeaderLines(name, size) == [Client.StatusOk, t + mime, l + digits, p + name + "\""];
  }

  /** What the client sends, the server reads back as a GET for the same path. */
  lemma RequestIsReadBack(host: CString, path: CString)
    requires Server.IsToken(path, 1023)
    ensures Server.ScanRequestLine(Client.FormatRequest(host, path)) == Some(Server.RequestLine("GET", path))
  {
    var rest := " HTTP/1.1\r\nHost: " + host + "\r\nConnection: close\r\n\r\n";
    assert Client.FormatRequest(host, path) == "GET" + " " + path + rest;
    Server.ScanRequestLineOf("GET", path, rest);
  }

  /** A file name the server serves and the client can ask for by URL: it
      needs no slash, colon, white space or "..", it is not the index, and it
      is short enough that neither the URL nor the header gets cut. */
  predicate Servable(name: CString, size: nat)
  {
    1 <= |name| <= 198 && |name| + |Decimal(size)| <= 388 && name != "index.html"
    && '/' !in name && ':' !in name && !Contains(name, "..")
    && forall k :: 0 <= k < |name| ==> !IsSpace(name[k])
  }

  /** The bytes a reader got in its first read and in its later reads. */
  predicate SplitInto(response: string, first: string, later: seq<string>)
  {
    first + Concat(later) == response && forall k :: 0 <= k < |later| ==> later[k] != []
  }

  lemma ServableIsOneLine(name: CString, size: nat)
    requires Servable(name, size)
    ensures OneLine(name)
  {
    forall k | 0 <= k < |name| ensures name[k] != '\r' {
      assert !IsSpace(name[k]);
    }
  }

  lemma NotIndexPath(name: CString)
    requires name != "index.html"
    ensures "/" + name != "/index.html"
  {
    assert ("/" + name)[1..] == name;
    assert "/index.html"[1..] == "index.html";
  }

  /** The path the client asks for is one token the server routes to `send_file`. */
  lemma FilePathIsToken(name: CString, size: nat)
    requires Servable(name, size)
    ensures Server.IsToken("/" + name, 1023) && "/" + name != "/" && "/" + name != "/index.html"
  {
    var path := "/" + name;
    forall k | 0 <= k < |path| ensures !IsSpace(path[k]) {
      if k > 0 { assert path[k] == name[k - 1]; }
    }
    NotIndexPath(name);
    assert |path| >= 2;
  }

  /** The server answers a GET for such a path as `send_file` does. */
  lemma FileRequestIsRouted(host: CString, name: CString, size: nat, disk: Server.Disk)
    requires Servable(name, size)
    ensures Server.Respond(Client.FormatRequest(host, "/" + name), disk) == Server.FileResponse("/" + name, disk)
  {
    FilePathIsToken(name, size);
    RequestIsReadBack(host, "/" + name);
  }

  lemma ServedFileResponse(name: CString, content: string, disk: Server.Disk)
    requires Servable(name, |content|)
    requires name in disk.files && disk.files[name] == Server.FileEntry(true, |content|, Blocks(content, Server.FileBufferSize))
    ensures Server.FileResponse("/" + name, disk) == Server.FullFileHeader(name, |content|) + content
  {
    Server.FileIsSentVerbatim(name, |content|, content, disk);
  }

  /** The server answers the client's request for a file it holds with the
      whole header and the file's bytes. */
  lemma ServerSendsFile(host: CString, name: CString, content: string, disk: Server.Disk)
    requires Servable(name, |content|)
    requires name in disk.files && disk.files[name] == Server.FileEntry(true, |content|, Blocks(content, Server.FileBufferSize))
    ensures Server.Respond(Client.FormatRequest(host, "/" + name), disk) == Server.FullFileHeader(name, |content|) + content
  {
    FileRequestIsRouted(host, name, |content|, disk);
    ServedFileResponse(name, content, disk);
  }

  /** A header block as the client frames it: it ends in a blank line and
      holds no earlier one. */
  predicate EndsAtFirstBlankLine(h: string)
  {
    |h| >= 4 && h[|h| - 4..] == Client.Terminator && forall j :: 0 <= j < |h| - 4 ==> !OccursAt(h, Client.Terminator, j)
  }

  /** The header the server sends for such a file starts with the 200 status
      line, holds no NUL and ends at its first blank line. */
  lemma ServedHeaderIsFramed(name: CString, size: nat)
    requires Servable(name, size)
    ensures var h := Server.FullFileHeader(name, size);
            '\0' !in h && Client.StatusOk <= h && EndsAtFirstBlankLine(h)
  {
    ServableIsOneLine(name, size);
    FileHeaderLinesAreOneLine(name, size);
    FileHeaderIsBlock(name, size);
    HeaderBlockEndsAtBlankLine(FileHeaderLines(name, size));
    var h := Server.FullFileHeader(name, size);
    assert h == Client.StatusOk + h[15..];
  }

  lemma CancelPrefix(a: string, x: string, y: string)
    requires a + x == a + y
    ensures x == y
  {
    assert x == (a + x)[|a|..];
    assert y == (a + y)[|a|..];
  }

  /** The bytes after the header, in the first read and in all later reads,
      are the body. */
  lemma RestIsBody(header: string, body: string, first: string, later: seq<string>)
    requires SplitInto(header + body, first, later) && |header| <= |first|
    ensures first == header + first[|header|..]
    ensures first[|header|..] + Concat(later) == body
  {
    var rest := first[|header|..];
    assert first[..|header|] == (first + Concat(later))[..|header|];
    assert first == first[..|header|] + rest;
    assert header + (rest + Concat(later)) == header + body by {
      assert header + rest + Concat(later) == header + (rest + Concat(later));
    }
    CancelPrefix(header, rest + Concat(later), body);
  }

  /** A client whose first read holds a whole 200 header saves everything
      after it, from all later reads, under the name its path gives. */
  lemma ClientSavesBody(url: CString, header: CString, body: string, first: string, later: seq<string>)
    requires Client.ParseUrl(url).Some?
    requires Client.StatusOk <= header && EndsAtFirstBlankLine(header)
    requires SplitInto(header + body, first, later) && |header| <= |first|
    ensures var t := Client.ParseUrl(url).value;
            (Client.ClientRun(url, Client.Network(true, true, first, later, true))
             == Client.Outcome(Client.FormatRequest(t.host, t.path), false, Success(Client.SavedFile(Client.OutputName(t.path), body))))
  {
    RestIsBody(header, body, first, later);
    var rest := first[|header|..];
    Client.FrameAtFirstBlankLine(header, rest);
    CStrOfCString(header, rest);
    assert Client.StatusIsOk(first);
    DrainAfterReads(later, []);
    assert later + [] == later;
    assert Drain(later) == Concat(later);
  }

  /** The client names the saved file after the last path segment. */
  lemma OutputNameOfFile(name: CString)
    requires name != [] && '/' !in name
    ensures Client.OutputName("/" + name) == name
  {
    var path := "/" + name;
    forall k | 0 < k < |path| ensures path[k] != '/' {
      assert path[k] == name[k - 1];
      assert name[k - 1] in name;
    }
    assert path[|path| - 1] != '/';
  }

  /** The request path and the URL that name a file of the served directory. */
  function FilePath(name: CString): CString
  {
    "/" + name
  }

  function FileUrl(host: CString, name: CString): CString
  {
    Client.Scheme + host + FilePath(name)
  }

  /** The client reads such a URL back as host, port 80 and the file's path. */
  lemma FileUrlIsParsed(host: CString, name: CString, size: nat)
    requires 1 <= |host| <= 99 && ':' !in host && '/' !in host
    requires Servable(name, size)
    ensures Client.ParseUrl(FileUrl(host, name)) == Some(Client.UrlTarget(host, 80, FilePath(name)))
  {
    var path := FilePath(name);
    forall k | 0 <= k < |path| ensures path[k] != '\n' && path[k] != ':' {
      if k > 0 {
        assert path[k] == name[k - 1];
        assert !IsSpace(name[k - 1]);
        assert name[k - 1] in name;
      }
    }
    Client.ParseUrlWithoutPort(host, path);
  }

  /** A client fetching such a file from a server that sends the header and
      the content saves the content under the file's own name. */
  lemma ClientDownloadsFile(host: CString, name: CString, content: string, first: string, later: seq<string>)
    requires 1 <= |host| <= 99 && ':' !in host && '/' !in host
    requires Servable(name, |content|)
    requires SplitInto(Server.FullFileHeader(name, |content|) + content, first, later)
    requires |Server.FullFileHeader(name, |content|)| <= |first|
    ensures Client.ClientRun(FileUrl(host, name), Client.Network(true, true, first, later, true))
         == Client.Outcome(Client.FormatRequest(host, FilePath(name)), false, Success(Client.SavedFile(name, content)))
  {
    FileUrlIsParsed(host, name, |content|);
    ServedHeaderIsFramed(name, |content|);
    ClientSavesBody(FileUrl(host, name), Server.FullFileHeader(name, |content|), content, first, later);
    OutputNameOfFile(name);
  }

  /** A download of a file the server holds saves exactly that file's content
      under its own name, whatever split of the response the reads return,
      provided the first read holds the whole header. */
  lemma DownloadOfServedFile(host: CString, name: CString, content: string, disk: Server.Disk,
                             first: string, later: seq<string>)
    requires 1 <= |host| <= 99 && ':' !in host && '/' !in host
    requires Servable(name, |content|)
    requires name in disk.files && disk.files[name] == Server.FileEntry(true, |content|, Blocks(content, Server.FileBufferSize))
    requires SplitInto(Server.Respond(Client.FormatRequest(host, FilePath(name)), disk), first, later)
    requires |Server.FullFileHeader(name, |content|)| <= |first| < Client.BufferSize
    ensures Client.ClientRun(FileUrl(host, name), Client.Network(true, true, first, later, true))
         == Client.Outcome(Client.FormatRequest(host, FilePath(name)), false, Success(Client.SavedFile(name, content)))
  {
    ServerSendsFile(host, name, content, disk);
    ClientDownloadsFile(host, name, content, first, later);
  }
}
