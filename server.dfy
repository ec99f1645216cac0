/** The static-file server of servidor.c.  Sockets, directories and files are
    replaced by inputs: the bytes one `recv` returned, the entry names
    `readdir` yields for the served directory, and per file name whether
    `open` and `fstat` succeed, the size `fstat` reports and the chunks
    successive `read` calls return.  Every response is the byte string the
    server sends before closing the connection. */
module Server {
  import opened CStrings

  /** `BUF_SZ`: the block size of the file copy loop. */
  const FileBufferSize := 8192

  // ----- MIME table -----

  const OctetStream := "application/octet-stream"
  const HtmlType := "text/html; charset=utf-8"

  const KnownExtensions := [".html", ".htm", ".css", ".js", ".png", ".jpg", ".jpeg", ".gif"]

  /** The content type the table gives an extension (its dot included),
      matched exactly and case-sensitively. */
  function MimeOfExtension(ext: string): (r: string)
    ensures r == OctetStream <==> ext !in KnownExtensions
    ensures |r| <= 24
  {
    if ext == ".html" || ext == ".htm" then HtmlType
    else if ext == ".css" then "text/css"
    else if ext == ".js" then "application/javascript"
    else if ext == ".png" then "image/png"
    else if ext == ".jpg" || ext == ".jpeg" then "image/jpeg"
    else if ext == ".gif" then "image/gif"
    else OctetStream
  }

  /** `get_mime`: the type of the suffix that starts at the last dot of the name. */
  function GetMime(name: CString): (r: string)
    ensures '.' !in name ==> r == OctetStream
    ensures forall i :: 0 <= i < |name| && name[i] == '.' && '.' !in name[i + 1..] ==> r == MimeOfExtension(name[i..])
    ensures |r| <= 24
  {
    LastIndexOfEvery(name, '.');
    match LastIndexOf(name, '.')
    case None => OctetStream
    case Some(i) => MimeOfExtension(name[i..])
  }

  /** The type depends on the suffix from the last dot alone, whatever precedes it. */
  lemma GetMimeOfSuffix(stem: CString, ext: CString)
    requires ext != [] && ext[0] == '.' && '.' !in ext[1..]
    ensures GetMime(stem + ext) == MimeOfExtension(ext)
  {
    var name := stem + ext;
    assert name[|stem|] == '.' && name[|stem| + 1..] == ext[1..] && name[|stem|..] == ext;
  }

  // ----- Fixed responses -----

  /** `send_404` */
  const NotFoundResponse := "HTTP/1.1 404 Not Found\r\nContent-Type: text/plain\r\n\r\narquivo nao encontrado."
  /** `send_500` */
  const ServerErrorResponse := "HTTP/1.1 500 Internal Server Error\r\nContent-Type: text/plain\r\n\r\nerro interno do servidor."
  /** The reply to any method other than GET. */
  const MethodNotAllowedResponse := "HTTP/1.1 405 Method Not Allowed\r\nAllow: GET\r\n\r\n"

  // ----- Directory listing (send_index) -----

  const ListingHeader := "HTTP/1.1 200 OK" + "\r\n" + "Content-Type: " + HtmlType + "\r\n" + "\r\n"
  const PageOpen := "<!doctype html><html><head><meta charset='utf-8'><title>Arquivos</title></head><body>"
  const PageHeading := "<h1>Arquivos disponiveis</h1><ul>"
  const PageClose := "</ul></body></html>"

  /** `send(fd, literal, n, 0)` with an explicit length: the first `n` bytes of
      the array that holds the literal followed by its terminating NUL. */
  function SendLiteral(literal: string, n: nat): (r: string)
    requires n <= |literal| + 1
    ensures |r| == n && r <= literal + "\0"
  {
    (literal + "\0")[..n]
  }

  /** The lengths 86, 34 and 20 of the listing's literals each count the NUL
      byte, so each literal goes out followed by one NUL. */
  lemma ListingLiteralsCarryNul()
    ensures SendLiteral(PageOpen, 86) == PageOpen + "\0"
    ensures SendLiteral(PageHeading, 34) == PageHeading + "\0"
    ensures SendLiteral(PageClose, 20) == PageClose + "\0"
  {
  }

  predicate IsDotEntry(name: string)
  {
    name == "." || name == ".."
  }

  /** One list item, formatted into `char line[1024]`. For every name a
      directory entry can have (at most 494 bytes fits) nothing is cut. */
  function ListingLine(name: CString): (r: string)
    ensures |r| <= 1023
    ensures r <= "<li><a href=\"/" + name + "\" download>" + name + "</a></li>"
    ensures |name| <= 494 ==> r == "<li><a href=\"/" + name + "\" download>" + name + "</a></li>"
    ensures |name| > 494 ==> |r| == 1023
  {
    Snprintf("<li><a href=\"/" + name + "\" download>" + name + "</a></li>", 1024)
  }

  /** The entries the listing shows, in directory order. */
  function Visible(entries: seq<CString>): (r: seq<CString>)
    ensures |r| <= |entries|
  {
    if entries == [] then []
    else
      var last := entries[|entries| - 1];
      Visible(entries[..|entries| - 1]) + (if IsDotEntry(last) then [] else [last])
  }

  /** The listing shows exactly the entries other than "." and "..". */
  lemma {:induction false} VisibleSkipsOnlyDotEntries(entries: seq<CString>)
    ensures forall e :: e in Visible(entries) <==> e in entries && !IsDotEntry(e)
  {
    if entries != [] {
      var n := |entries| - 1;
      VisibleSkipsOnlyDotEntries(entries[..n]);
      assert entries == entries[..n] + [entries[n]];
    }
  }

  /** The list items of the shown entries, in order. */
  function Anchors(names: seq<CString>): string
  {
    if names == [] then [] else Anchors(names[..|names| - 1]) + ListingLine(names[|names| - 1])
  }

  /** What `send_index` sends before the first entry. */
  function ListingPrologue(): string
  {
    ListingHeader + SendLiteral(PageOpen, 86) + SendLiteral(PageHeading, 34)
  }

  /** Everything `send_index` sends: `root` is the entry sequence of the served
      directory, or None when `opendir` fails. */
  function ListingResponse(root: Option<seq<CString>>): (r: string)
    ensures root.None? ==> r == ServerErrorResponse
    ensures root.Some? ==> ListingHeader <= r
  {
    match root
    case None => ServerErrorResponse
    case Some(entries) => ListingPrologue() + Anchors(Visible(entries)) + SendLiteral(PageClose, 20)
  }

  lemma VisibleSnoc(entries: seq<CString>, i: nat)
    requires i < |entries|
    ensures Visible(entries[..i + 1]) == Visible(entries[..i]) + (if IsDotEntry(entries[i]) then [] else [entries[i]])
  {
    assert entries[..i + 1][..i] == entries[..i];
  }

  lemma AnchorsSnoc(names: seq<CString>, name: CString)
    ensures Anchors(names + [name]) == Anchors(names) + ListingLine(name)
  {
    assert (names + [name])[..|names|] == names;
  }

  lemma {:induction false} VisibleAppend(a: seq<CString>, b: seq<CString>)
    ensures Visible(a + b) == Visible(a) + Visible(b)
    decreases |b|
  {
    if b == [] {
      assert a + b == a;
    } else {
      var last := b[|b| - 1];
      assert (a + b)[..|a + b| - 1] == a + b[..|b| - 1];
      VisibleAppend(a, b[..|b| - 1]);
    }
  }

  lemma SplitLast(s: seq<CString>)
    requires s != []
    ensures s[..|s| - 1] + [s[|s| - 1]] == s
  {
  }

  /** Only "." and ".." are skipped: a sequence without them is shown whole. */
  lemma {:induction false} VisibleKeepsOtherEntries(entries: seq<CString>)
    requires forall k :: 0 <= k < |entries| ==> !IsDotEntry(entries[k])
    ensures Visible(entries) == entries
  {
    if entries != [] {
      var init, last := entries[..|entries| - 1], entries[|entries| - 1];
      assert forall k :: 0 <= k < |init| ==> init[k] == entries[k];
      VisibleKeepsOtherEntries(init);
      assert !IsDotEntry(last);
      SplitLast(entries);
    }
  }

  lemma {:induction false} AnchorsAppend(a: seq<CString>, b: seq<CString>)
    ensures Anchors(a + b) == Anchors(a) + Anchors(b)
    decreases |b|
  {
    if b == [] {
      assert a + b == a;
    } else {
      var init, last := b[..|b| - 1], b[|b| - 1];
      assert (a + b)[..|a + b| - 1] == a + init && (a + b)[|a + b| - 1] == last;
      assert Anchors(a + b) == Anchors(a + init) + ListingLine(last);
      AnchorsAppend(a, init);
      AppendAssoc(Anchors(a), Anchors(init), ListingLine(last));
    }
  }

  /** Each entry other than "." and ".." adds its own line at its own place:
      the listing of `before + [e] + after` is that of `before`, the line of
      `e`, then that of `after`. */
  lemma ListingInDirectoryOrder(before: seq<CString>, e: CString, after: seq<CString>)
    ensures Anchors(Visible(before + [e] + after))
         == Anchors(Visible(before)) + (if IsDotEntry(e) then [] else ListingLine(e)) + Anchors(Visible(after))
  {
    VisibleAppend(before + [e], after);
    VisibleAppend(before, [e]);
    assert Visible([e]) == Visible([]) + (if IsDotEntry(e) then [] else [e]);
    AnchorsAppend(Visible(before) + Visible([e]), Visible(after));
    AnchorsAppend(Visible(before), Visible([e]));
    assert Anchors([e]) == Anchors([]) + ListingLine(e);
  }

  lemma PrefixOfAppend(a: string, b: string)
    ensures (a + b)[..|a|] == a
  {
  }

  lemma RegroupAfterHeader(a: string, b: string, c: string, d: string, e: string)
    ensures a + b + c + d + e == a + (b + c + d + e)
  {
  }

  /** Every successful listing starts with the listing header. */
  lemma ListingStartsWithHeader(entries: seq<CString>)
    ensures ListingResponse(Some(entries))[..|ListingHeader|] == ListingHeader
  {
    var o, h, items, c := SendLiteral(PageOpen, 86), SendLiteral(PageHeading, 34), Anchors(Visible(entries)), SendLiteral(PageClose, 20);
    assert ListingResponse(Some(entries)) == ListingHeader + o + h + items + c;
    RegroupAfterHeader(ListingHeader, o, h, items, c);
    PrefixOfAppend(ListingHeader, o + h + items + c);
  }

  lemma ListingHeaderHasNoL()
    ensures 'L' !in ListingHeader
  {
    assert 'L' !in "HTTP/1.1 200 OK";
    assert 'L' !in "Content-Type: ";
    assert 'L' !in HtmlType;
  }

  /** The listing header declares a content type but no Content-Length. */
  lemma ListingHasNoContentLength()
    ensures !Contains(ListingHeader, "Content-Length")
  {
    ListingHeaderHasNoL();
    MissingCharNotContained(ListingHeader, "Content-Length", 8);
  }

  // ----- Files (send_file) -----

  /** What the filesystem answers for one name: whether `fstat` succeeds on the
      opened file, the size it reports, and the chunks successive `read` calls
      return. */
  datatype FileEntry = FileEntry(statOk: bool, size: nat, chunks: seq<string>)

  /** The served directory as the server sees it: its entry names (None when
      `opendir` fails) and the names `open` succeeds on. */
  datatype Disk = Disk(root: Option<seq<CString>>, files: map<CString, FileEntry>)

  /** The path with one leading slash, if it has one, removed. */
  function StripSlash(path: CString): (p: CString)
    ensures path != [] && path[0] == '/' ==> path == "/" + p
    ensures path == [] || path[0] != '/' ==> p == path
  {
    if path != [] && path[0] == '/' then path[1..] else path
  }

  /** What `send_file` does with a path: list the directory, refuse it with
      404 before any `open`, or open the named file. */
  datatype Target = Index | Refused | OpenFile(name: CString)

  /** A ".." after a leading slash is a ".." of what follows the slash. */
  lemma DotDotAfterSlash(p: CString)
    requires Contains("/" + p, "..")
    ensures Contains(p, "..")
  {
    var path := "/" + p;
    var i := FindFirst(path, "..").value;
    assert path[i..i + 2] == "..";
    assert path[i] == path[i..i + 2][0] == '.';
    assert i >= 1;
    assert p[i - 1..i + 1] == path[i..i + 2];
    ContainsAt(p, "..", i - 1);
  }

  lemma DotDotSurvivesStrip(path: CString)
    ensures Contains(StripSlash(path), "..") <==> Contains(path, "..")
  {
    var p := StripSlash(path);
    if path != [] && path[0] == '/' {
      assert path == "/" + p;
      if Contains(p, "..") {
        ContainsAfterPrefix("/", p, "..");
      }
      if Contains(path, "..") {
        DotDotAfterSlash(p);
      }
    }
  }

  function Resolve(path: CString): (t: Target)
    ensures t.Index? <==> path == "" || path == "/"
    ensures t.Refused? <==> Contains(path, "..")
    ensures t.OpenFile? ==> t.name != [] && !Contains(t.name, "..") && t.name == StripSlash(path)
  {
    var p := StripSlash(path);
    DotDotSurvivesStrip(path);
    NoDotNoDotDot("");
    NoDotNoDotDot("/");
    if p == [] then Index
    else if Contains(p, "..") then Refused
    else OpenFile(p)
  }

  /** The stripping removes one slash only: a request for `//x` opens `/x`,
      an absolute path outside the served directory, whenever `x` holds no dot. */
  lemma DoubleSlashOpensAbsolutePath(x: CString)
    requires '.' !in x
    ensures Resolve("//" + x) == OpenFile("/" + x)
  {
    NoDotNoDotDot("//" + x);
    assert ("//" + x)[1..] == "/" + x;
  }

  /** The header `send_file` formats before cutting it to its buffer: 99
      fixed bytes around the type, the name and the size digits. */
  function FullFileHeader(name: CString, size: nat): (r: string)
    ensures |r| == 99 + |GetMime(name)| + |name| + |Decimal(size)|
  {
    "HTTP/1.1 200 OK" + "\r\n" + "Content-Type: " + GetMime(name) + "\r\n" + "Content-Length: " + Decimal(size)
      + "\r\n" + "Content-Disposition: attachment; filename=\"" + name + "\"" + "\r\n" + "\r\n"
  }

  /** The header as sent: formatted into `char header[512]`, so at most 511
      bytes; whole whenever name and size digits take up to 388 bytes. */
  function FileHeader(name: CString, size: nat): (r: string)
    ensures |r| <= 511 && r <= FullFileHeader(name, size)
    ensures |FullFileHeader(name, size)| > 511 ==> |r| == 511
    ensures |FullFileHeader(name, size)| <= 511 ==> r == FullFileHeader(name, size)
    ensures |name| + |Decimal(size)| <= 388 ==> r == FullFileHeader(name, size)
  {
    Snprintf(FullFileHeader(name, size), 512)
  }

  /** Everything `send_file` sends for a request path. */
  function FileResponse(path: CString, disk: Disk): (r: string)
    ensures r != []
    ensures Contains(path, "..") ==> r == NotFoundResponse
  {
    match Resolve(path)
    case Index => ListingResponse(disk.root)
    case Refused => NotFoundResponse
    case OpenFile(name) =>
      if name !in disk.files then NotFoundResponse
      else
        var f := disk.files[name];
        if !f.statOk then ServerErrorResponse else FileHeader(name, f.size) + Drain(f.chunks)
  }

  /** A path holding ".." gets exactly the 404 response, and the answer does
      not depend on the files at all: nothing is opened. */
  lemma DotDotIsNotFound(path: CString, disk: Disk, other: Disk)
    requires Contains(path, "..")
    ensures FileResponse(path, disk) == NotFoundResponse == FileResponse(path, other)
  {
  }

  /** An existing file goes out as its header followed by its content verbatim,
      and the announced length is the size `fstat` reported. */
  lemma FileIsSentVerbatim(name: CString, size: nat, content: string, disk: Disk)
    requires name != [] && !Contains(name, "..")
    requires |name| + |Decimal(size)| <= 388
    requires name in disk.files && disk.files[name] == FileEntry(true, size, Blocks(content, FileBufferSize))
    ensures FileResponse("/" + name, disk) == FullFileHeader(name, size) + content
  {
    assert ("/" + name)[1..] == name;
    DotDotSurvivesStrip("/" + name);
    assert Resolve("/" + name) == OpenFile(name);
    DrainBlocks(content, FileBufferSize);
    assert FileResponse("/" + name, disk) == FileHeader(name, size) + Drain(Blocks(content, FileBufferSize));
  }

  // ----- Request line (sscanf(req, "%7s %1023s", method, path)) -----

  /** The first index at or after `i` that is not white space. */
  function SkipSpaces(s: string, i: nat): (j: nat)
    requires i <= |s|
    ensures i <= j <= |s|
    ensures forall k :: i <= k < j ==> IsSpace(s[k])
    ensures j == |s| || !IsSpace(s[j])
    decreases |s| - i
  {
    if i == |s| || !IsSpace(s[i]) then i else SkipSpaces(s, i + 1)
  }

  /** Where a `%<width>s` conversion that starts at `i` stops. */
  function TokenEnd(s: string, i: nat, width: nat): (j: nat)
    requires i <= |s|
    ensures i <= j <= |s| && j - i <= width
    ensures forall k :: i <= k < j ==> !IsSpace(s[k])
    ensures j - i == width || j == |s| || IsSpace(s[j])
    decreases width
  {
    if width == 0 || i == |s| || IsSpace(s[i]) then i else TokenEnd(s, i + 1, width - 1)
  }

  lemma SkipSpacesAt(s: string, i: nat, j: nat)
    requires i <= j <= |s|
    requires forall k :: i <= k < j ==> IsSpace(s[k])
    requires j == |s| || !IsSpace(s[j])
    ensures SkipSpaces(s, i) == j
  {
  }

  lemma TokenEndAt(s: string, i: nat, width: nat, j: nat)
    requires i <= j <= |s| && j - i <= width
    requires forall k :: i <= k < j ==> !IsSpace(s[k])
    requires j - i == width || j == |s| || IsSpace(s[j])
    ensures TokenEnd(s, i, width) == j
  {
  }

  /** A run of one to `width` non-space characters. */
  predicate IsToken(s: string, width: nat)
  {
    1 <= |s| <= width && forall k :: 0 <= k < |s| ==> !IsSpace(s[k])
  }

  predicate AllSpaces(s: string)
  {
    forall k :: 0 <= k < |s| ==> IsSpace(s[k])
  }

  datatype RequestLine = RequestLine(verb: CString, path: CString)

  /** The request line as the server reads it from the NUL-terminated
      buffer: a method of at most 7 and a path of at most 1023 non-space
      characters, each conversion skipping white space first; None unless
      both are found. */
  function ScanRequestLine(received: string): (r: Option<RequestLine>)
    ensures r.Some? ==> IsToken(r.value.verb, 7) && IsToken(r.value.path, 1023)
  {
    ScanTokens(CStr(received))
  }

  /** The two conversions on the C string itself. */
  function ScanTokens(s: CString): (r: Option<RequestLine>)
    ensures r.Some? ==> IsToken(r.value.verb, 7) && IsToken(r.value.path, 1023)
  {
    var m0 := SkipSpaces(s, 0);
    if m0 == |s| then None
    else
      var m1 := TokenEnd(s, m0, 7);
      var p0 := SkipSpaces(s, m1);
      if p0 == |s| then None
      else
        var p1 := TokenEnd(s, p0, 1023);
        SliceIsCString(s, m0, m1);
        SliceIsCString(s, p0, p1);
        Some(RequestLine(s[m0..m1], s[p0..p1]))
  }

  /** The C string of a request holds the two tokens, one space apart,
      followed by its end or white space. */
  lemma RequestLineLayout(m: CString, p: CString, rest: string)
    requires IsToken(m, 7) && IsToken(p, 1023)
    requires rest == [] || IsSpace(rest[0])
    ensures var s, n := CStr(m + " " + p + rest), |m| + 1 + |p|;
            n <= |s| && s[..|m|] == m && s[|m|] == ' ' && s[|m| + 1..n] == p && (n == |s| || IsSpace(s[n]))
  {
    var line := m + " " + p;
    assert '\0' !in line by {
      forall k | 0 <= k < |line| ensures line[k] != '\0' {
        if k < |m| { assert m[k] in m; } else if k > |m| { assert p[k - |m| - 1] in p; }
      }
    }
    CStrOfCString(line, rest);
    assert m + " " + p + rest == line + rest;
    var s := line + CStr(rest);
    assert s[..|m|] == m;
    assert s[|m| + 1..|line|] == p;
    assert |CStr(rest)| > 0 ==> CStr(rest)[0] == rest[0];
  }

  /** A token sitting at `i`, followed by the end or white space, is what the
      skip and the token scan find there. */
  lemma TokenAt(s: string, i: nat, tok: string, width: nat)
    requires IsToken(tok, width)
    requires i + |tok| <= |s| && s[i..i + |tok|] == tok
    requires i + |tok| == |s| || IsSpace(s[i + |tok|])
    ensures SkipSpaces(s, i) == i && TokenEnd(s, i, width) == i + |tok|
  {
    forall k | i <= k < i + |tok| ensures !IsSpace(s[k]) {
      assert s[k] == s[i..i + |tok|][k - i];
    }
    SkipSpacesAt(s, i, i);
    TokenEndAt(s, i, width, i + |tok|);
  }

  /** Two tokens one space apart, then the end or white space, scan as those tokens. */
  lemma ScanTokensOfLayout(s: CString, m: CString, p: CString)
    requires IsToken(m, 7) && IsToken(p, 1023)
    requires |m| + 1 + |p| <= |s| && s[..|m|] == m && s[|m|] == ' ' && s[|m| + 1..|m| + 1 + |p|] == p
    requires |m| + 1 + |p| == |s| || IsSpace(s[|m| + 1 + |p|])
    ensures ScanTokens(s) == Some(RequestLine(m, p))
  {
    assert s[0..|m|] == s[..|m|];
    TokenAt(s, 0, m, 7);
    TokenAt(s, |m| + 1, p, 1023);
    SkipSpacesAt(s, |m|, |m| + 1);
  }

  /** A method token and a path token separated by a space are read back
      exactly, whatever follows the path after white space. */
  lemma ScanRequestLineOf(m: CString, p: CString, rest: string)
    requires IsToken(m, 7) && IsToken(p, 1023)
    requires rest == [] || IsSpace(rest[0])
    ensures ScanRequestLine(m + " " + p + rest) == Some(RequestLine(m, p))
  {
    RequestLineLayout(m, p, rest);
    ScanTokensOfLayout(CStr(m + " " + p + rest), m, p);
  }

  /** With fewer than two tokens there is no request line: white space, at
      most one short token, white space. */
  lemma ScanRequestLineNeedsTwoTokens(lead: string, m: CString, trail: string)
    requires AllSpaces(lead) && AllSpaces(trail)
    requires m == [] || IsToken(m, 7)
    ensures ScanRequestLine(lead + m + trail) == None
  {
    var s := lead + m + trail;
    assert '\0' !in s by {
      forall k | 0 <= k < |s| ensures s[k] != '\0' {
        if |lead| <= k < |lead| + |m| { assert m[k - |lead|] in m; }
      }
    }
    CStrOfCString(s, []);
    assert s + [] == s;
    if m == [] {
      SkipSpacesAt(s, 0, |s|);
    } else {
      SkipSpacesAt(s, 0, |lead|);
      TokenEndAt(s, |lead|, 7, |lead| + |m|);
      SkipSpacesAt(s, |lead| + |m|, |s|);
    }
  }

  // ----- Dispatch (the body of the accept loop) -----

  /** What the server sends on one connection, given the bytes one `recv`
      returned (empty when it returned 0 or less); empty means the
      connection is closed without a response. */
  function Respond(received: string, disk: Disk): (r: string)
    ensures r == [] <==> ScanRequestLine(received).None?
    ensures ScanRequestLine(received).Some? && ScanRequestLine(received).value.verb != "GET"
        ==> r == MethodNotAllowedResponse
  {
    match ScanRequestLine(received)
    case None => []
    case Some(line) =>
      if line.verb != "GET" then MethodNotAllowedResponse
      else if line.path == "/" || line.path == "/index.html" then ListingResponse(disk.root)
      else FileResponse(line.path, disk)
  }

  /** Any method other than GET gets exactly the 405 response, whatever the
      path, the rest of the request and the files. */
  lemma OtherMethodsGet405(m: CString, path: CString, rest: string, disk: Disk)
    requires IsToken(m, 7) && IsToken(path, 1023) && m != "GET"
    requires rest == [] || IsSpace(rest[0])
    ensures Respond(m + " " + path + rest, disk) == MethodNotAllowedResponse
  {
    ScanRequestLineOf(m, path, rest);
  }

  /** `/` and `/index.html` get the listing; every other GET goes to `send_file`. */
  lemma GetRouting(path: CString, rest: string, disk: Disk)
    requires IsToken(path, 1023)
    requires rest == [] || IsSpace(rest[0])
    ensures Respond("GET " + path + rest, disk)
         == if path == "/" || path == "/index.html" then ListingResponse(disk.root) else FileResponse(path, disk)
  {
    assert "GET " + path + rest == "GET" + " " + path + rest;
    ScanRequestLineOf("GET", path, rest);
  }

  /** Short requests are dropped: nothing is sent. */
  lemma ShortRequestsGetNothing(lead: string, m: CString, trail: string, disk: Disk)
    requires AllSpaces(lead) && AllSpaces(trail)
    requires m == [] || IsToken(m, 7)
    ensures Respond(lead + m + trail, disk) == []
  {
    ScanRequestLineNeedsTwoTokens(lead, m, trail);
  }

  // ----- The imperative parts -----

  /** The `read`/`send` loop of `send_file`. */
  method CopyFile(chunks: seq<string>) returns (sent: string)
    ensures sent == Drain(chunks)
  {
    sent := [];
    var i := 0;
    while i < |chunks| && chunks[i] != []
      invariant 0 <= i <= |chunks|
      invariant sent + Drain(chunks[i..]) == Drain(chunks)
    {
      DrainStep(chunks, i);
      AppendAssoc(sent, chunks[i], Drain(chunks[i + 1..]));
      sent := sent + chunks[i];
      i := i + 1;
    }
    DrainEnd(chunks, i);
    assert sent + [] == sent;
  }

  /** The `readdir` loop of `send_index`: one line per entry other than "."
      and "..", in directory order. */
  method SendEntries(entries: seq<CString>) returns (items: string)
    ensures items == Anchors(Visible(entries))
  {
    items := [];
    var i := 0;
    while i < |entries|
      invariant 0 <= i <= |entries|
      invariant items == Anchors(Visible(entries[..i]))
    {
      var name := entries[i];
      ghost var shown := Visible(entries[..i]);
      VisibleSnoc(entries, i);
      if !IsDotEntry(name) {
        assert Visible(entries[..i + 1]) == shown + [name];
        AnchorsSnoc(shown, name);
        items := items + ListingLine(name);
      } else {
        assert Visible(entries[..i + 1]) == shown + [];
        assert shown + [] == shown;
      }
      i := i + 1;
    }
    assert entries[..i] == entries;
  }

  /** `send_index`: header and opening literals, the entry lines, then the
      closing literal; a 500 response when the directory cannot be opened. */
  method SendIndex(root: Option<seq<CString>>) returns (sent: string)
    ensures sent == ListingResponse(root)
  {
    if root.None? {
      return ServerErrorResponse;
    }
    sent := ListingHeader;
    sent := sent + SendLiteral(PageOpen, 86);
    sent := sent + SendLiteral(PageHeading, 34);
    var items := SendEntries(root.value);
    sent := sent + items;
    sent := sent + SendLiteral(PageClose, 20);
  }

  /** `send_file` */
  method SendFile(path: CString, disk: Disk) returns (sent: string)
    ensures sent == FileResponse(path, disk)
  {
    var p := path;
    if p != [] && p[0] == '/' {
      p := p[1..];
    }
    if p == [] {
      sent := SendIndex(disk.root);
      return;
    }
    if Contains(p, "..") {
      return NotFoundResponse;
    }
    if p !in disk.files {
      return NotFoundResponse;
    }
    var f := disk.files[p];
    if !f.statOk {
      return ServerErrorResponse;
    }
    var body := CopyFile(f.chunks);
    sent := FileHeader(p, f.size) + body;
  }

  /** One pass of the accept loop: read the request, answer it, close. */
  method HandleConnection(received: string, disk: Disk) returns (sent: string)
    ensures sent == Respond(received, disk)
  {
    if |received| == 0 {
      return [];
    }
    var line := ScanRequestLine(received);
    if line.None? {
      return [];
    }
    if line.value.verb != "GET" {
      return MethodNotAllowedResponse;
    }
    if line.value.path == "/" || line.value.path == "/index.html" {
      sent := SendIndex(disk.root);
    } else {
      sent := SendFile(line.value.path, disk);
    }
  }

  lemma ServeStep(replies: seq<string>, connections: seq<string>, i: nat, sent: string, disk: Disk)
    requires i < |connections| && |replies| == i
    requires forall k :: 0 <= k < i ==> replies[k] == Respond(connections[k], disk)
    requires sent == Respond(connections[i], disk)
    ensures forall k :: 0 <= k < i + 1 ==> (replies + [sent])[k] == Respond(connections[k], disk)
  {
    forall k | 0 <= k < i + 1 ensures (replies + [sent])[k] == Respond(connections[k], disk) {
      if k < i {
        assert (replies + [sent])[k] == replies[k];
      }
    }
  }

  /** The accept loop over a finite run of connections: they are served one
      after the other, and each reply depends on its own request alone. */
  method Serve(connections: seq<string>, disk: Disk) returns (replies: seq<string>)
    ensures |replies| == |connections|
    ensures forall k :: 0 <= k < |connections| ==> replies[k] == Respond(connections[k], disk)
  {
    replies := [];
    var i := 0;
    while i < |connections|
      invariant 0 <= i <= |connections|
      invariant |replies| == i
      invariant forall k :: 0 <= k < i ==> replies[k] == Respond(connections[k], disk)
    {
      var sent := HandleConnection(connections[i], disk);
      ServeStep(replies, connections, i, sent, disk);
      replies := replies + [sent];
      i := i + 1;
    }
  }
}
