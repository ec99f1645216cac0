# An HTTP download client and a static-file server, modelled in Dafny

The repository holds two sequential C programs:

- `cliente.c` is a downloader. It parses an `http://host[:port]/path` URL and sends one GET request. It finds the end of the response header in its first read, then saves everything after the header, from that read and from all later reads, under the last segment of the path.
- `servidor.c` is a static-file server. For each accepted connection it reads one request line and answers in one of four ways:
  - `405` for any method other than GET;
  - an HTML listing of the served directory for `/` and `/index.html`;
  - `404` for any path containing `..`;
  - otherwise the named file, with Content-Type, Content-Length and Content-Disposition headers.

The model keeps the byte-level logic of both programs and replaces every system call with an input.

- **Bytes.** A `char` stands for one octet. `CStrings.CString` is a string without a NUL byte, which is what a `char *` can hold.
- **Server inputs.** `Server.Disk` replaces the filesystem. It holds the entry names `readdir` yields for the served directory (None when `opendir` fails). For each name that `open` succeeds on, it records whether `fstat` succeeds, the size it reports, and the chunks successive `read` calls return.
- **Server output.** A response is the concatenation of everything the server sends on the connection.
- **Client inputs.** `Client.Network` replaces the environment:
  - whether the host resolves;
  - whether `connect` succeeds;
  - the bytes of the first `read`;
  - the chunks of the later reads;
  - whether `fopen` succeeds.
- **Failed reads.** An empty chunk stands for a `read` that returned 0 or less.
- **Client outcome.** `Client.Outcome` records three things: the request that was written, whether the non-200 warning was printed, and either the saved file or the error the program exits with.

The pure parts are functions. Each loop of the C code is a method proved against those functions:

- the `read`/`send` copy loop;
- the `readdir` loop;
- the accept loop;
- the client's append loop.

The `Transfer` module puts the two programs end to end. What the client sends for a path without white space, the server reads back as a GET for that same path; the server stops a path at its first space, so `/a b` is read back as `/a`. When the server holds a file and the client asks for it, the client saves exactly that file's bytes under the file's own name, however the response is split across reads, provided the first read holds the whole header. This holds for the file names `Transfer.Servable` admits: 1 to 198 bytes, with no white space, no `/`, no `:` and no `..`, and short enough together with the size digits that the header is not cut. `index.html` is not among them, because a request for `/index.html` gets the directory listing instead of the file.

Modules:

- `cstrings.dfy` (`CStrings`): the C library pieces both programs use. These are `strrchr`, `strstr`, `snprintf` truncation, `isspace`, `%ld` printing and the read loops.
- `server.dfy` (`Server`): the model of `servidor.c`.
- `client.dfy` (`Client`): the model of `cliente.c`.
- `transfer.dfy` (`Transfer`): the end-to-end properties.

Where the repository's written description of the system and the code disagree, the model follows the code. Each point:

- **A URL with no path is refused** when its host part has at most 99 characters (`Client.ParseUrlNeedsPath`). The path does not default to `/`. A longer host part is cut after 99 characters and the rest becomes the path: `http://` followed by 100 letters is read as host of 99 letters, port 80 and path of one letter.
- **Port.** The port is any digit string. It is not limited to 1–65535 (see Left out).
- **Request line.** The server needs two conversions, method and path, and ignores the rest. It does not require exactly three tokens. The method conversion takes at most 7 characters, so a single word of 8 or more characters already counts as two: `ABCDEFGH` alone is read as method `ABCDEFG` and path `H`, and gets the 405 response. Only white space with at most one word of up to 7 characters gets no response.
- **Non-200 status.** The client prints a warning and still saves the body (`Client.ClientSavesExactlyWhen`). It does not abort.
- **Framing.** The client looks for the end of the header in its first read only. A header split across two reads is a malformed header.
- **Listing content.** The listing has no Content-Length header (`Server.ListingHasNoContentLength`). It covers the served directory only, with links `/NAME`. There is no per-directory `index.html` lookup, and only `.` and `..` are hidden.
- **Stray NUL bytes.** The listing's opening and closing literals are sent with lengths that count their terminating NUL, so three NUL bytes go out inside the HTML (`Server.ListingLiteralsCarryNul`).
- **Failure codes.** A failed `open`, whatever the cause, gives 404. Only a failed `fstat` or `opendir` gives 500.
- **Absolute paths.** Only one leading `/` is stripped. A request for `//x` therefore opens the absolute path `/x` whenever `x` holds no dot (`Server.DoubleSlashOpensAbsolutePath`).
- **Truncated headers.** The file header is cut to 511 bytes when the name is long enough. The blank line that ends it is then lost (see `Server.FileHeader`).

## Model

| member | source | states |
|---|---|---|
| CStrings.CStr | servidor.c:165-168 | the C string of a NUL-terminated buffer is its prefix up to the first NUL, or the whole buffer when it holds none |
| CStrings.CStrOfCString | cliente.c:78-81 | a NUL-free prefix is kept whole by `CStr`, with the C string of the rest after it |
| CStrings.LastIndexOf | servidor.c:19 | `strrchr`: None exactly when the character is absent; otherwise the index of an occurrence with none after it |
| CStrings.FindFirst | cliente.c:81 | `strstr`: the first index where the pattern occurs, with no occurrence before it; None exactly when it occurs nowhere |
| CStrings.Snprintf | servidor.c:99-102 | `snprintf` into `size` bytes keeps a prefix of the formatted text: all of it when shorter than `size`, else exactly `size - 1` bytes |
| CStrings.Decimal | servidor.c:100-102 | `%ld` of a non-negative size: a non-empty run of decimal digits with no leading zero |
| CStrings.DecimalRoundTrip | cliente.c:23 | reading back the digits `%ld` writes gives the number again |
| CStrings.DrainAfterReads | servidor.c:108-109 | while reads return data, the loop forwards the chunks in order and then whatever the following reads give |
| CStrings.Drain | servidor.c:108-109 | what a read-and-forward loop passes on is a prefix of everything the reads returned |
| CStrings.DrainStopsAtFailedRead | cliente.c:114-116 | the loop forwards every chunk before the first read that returns 0 or less, and nothing after it |
| CStrings.Blocks | servidor.c:106-108 | a regular file is read as blocks of 1 to 8192 bytes |
| CStrings.DrainBlocks | servidor.c:105-109 | forwarding the blocks of a file reproduces its content exactly |
| Server.MimeOfExtension | servidor.c:21-28 | the generic type `application/octet-stream` comes back exactly for suffixes outside `.html .htm .css .js .png .jpg .jpeg .gif`, matched exactly and case-sensitively |
| Server.GetMime | servidor.c:18-29 | a name without a dot gets `application/octet-stream`; otherwise the type is that of the suffix from the last dot |
| Server.GetMimeOfSuffix | servidor.c:19-28 | the type depends only on the suffix from the last dot, whatever stem precedes it |
| Server.SendLiteral | servidor.c:56 | `send` with an explicit length sends that many bytes of the literal followed by its NUL |
| Server.ListingLiteralsCarryNul | servidor.c:56-74 | the lengths 86, 34 and 20 send each listing literal followed by exactly one NUL byte |
| Server.ListingLine | servidor.c:67-70 | an entry's list item is a prefix of the full anchor line: that line whole for names up to 494 bytes, and exactly 1023 bytes of it for longer names |
| Server.VisibleSkipsOnlyDotEntries | servidor.c:61-64 | the listing shows an entry exactly when it is in the directory and is neither `.` nor `..` |
| Server.VisibleKeepsOtherEntries | servidor.c:63-64 | a directory without `.` and `..` is shown whole, in order |
| Server.ListingInDirectoryOrder | servidor.c:61-71 | each entry contributes its own line at its own place in directory order; `.` and `..` contribute nothing |
| Server.ListingStartsWithHeader | servidor.c:52-53 | every listing starts with the 200 header for `text/html; charset=utf-8` |
| Server.ListingHasNoContentLength | servidor.c:52 | the listing header carries no `Content-Length` |
| Server.SendEntries | servidor.c:59-71 | the `readdir` loop sends the lines of the shown entries in directory order |
| Server.SendIndex | servidor.c:47-75 | `send_index` sends the header, the two opening literals, the entry lines and the closing literal, or the 500 response when the directory cannot be opened |
| Server.ListingResponse | servidor.c:47-75 | a directory that cannot be opened gets exactly the 500 response; an open one gets a response starting with the 200 listing header |
| Server.StripSlash | servidor.c:80-82 | a path starting with `/` loses exactly that one slash; any other path, the empty one included, is kept as it is |
| Server.DotDotSurvivesStrip | servidor.c:82-87 | the path holds `..` after stripping exactly when it held it before |
| Server.Resolve | servidor.c:80-87 | an empty or `/` path gives the listing; a path holding `..` is refused; any other path opens the path less one leading slash, which is non-empty and holds no `..` |
| Server.DoubleSlashOpensAbsolutePath | servidor.c:82-90 | `//x` opens `/x`, outside the served directory |
| Server.FileHeader | servidor.c:97-103 | the header sent is a prefix of the full header of at most 511 bytes: exactly 511 when the full one is longer, the full one whenever it fits in 511 bytes, which is so when name and size digits take up to 388 bytes |
| Server.FullFileHeader | servidor.c:99-102 | the formatted file header is 99 bytes longer than the type, the name and the size digits together |
| Server.DotDotIsNotFound | servidor.c:87 | a path with `..` gets exactly the 404 response, whatever the files, so nothing is opened |
| Server.FileIsSentVerbatim | servidor.c:97-110 | an existing file goes out as its full header followed by its content unchanged |
| Server.CopyFile | servidor.c:105-110 | the copy loop sends the chunks the reads return, in order, up to the first failed read |
| Server.SendFile | servidor.c:79-111 | `send_file` sends the listing, the 404 response (for `..` or a failed `open`), the 500 response (for a failed `fstat`), or the header and the file's bytes |
| Server.FileResponse | servidor.c:79-111 | `send_file` always sends something, and exactly the 404 response for a path holding `..` |
| Server.SkipSpaces | servidor.c:172 | the white space skipped before a conversion: the first non-space index at or after the start |
| Server.TokenEnd | servidor.c:172 | a `%Ns` conversion takes at most N characters, all non-space, and stops at N, at the end or at white space |
| Server.ScanRequestLine | servidor.c:171-172 | a parsed request line has a method of 1 to 7 and a path of 1 to 1023 non-space characters |
| Server.ScanTokens | servidor.c:172 | the two conversions on a C string give a method of 1 to 7 and a path of 1 to 1023 non-space characters, or nothing |
| Server.ScanRequestLineOf | servidor.c:171-172 | a method and a path one space apart, followed by the end or white space, are read back exactly |
| Server.ScanRequestLineNeedsTwoTokens | servidor.c:172-175 | white space with at most one word of up to 7 characters in it parses to nothing |
| Server.OtherMethodsGet405 | servidor.c:178-183 | every method other than GET gets exactly the 405 response with `Allow: GET`, whatever the path |
| Server.GetRouting | servidor.c:186-189 | a GET for `/` or `/index.html` gets the listing; any other GET goes to `send_file` |
| Server.ShortRequestsGetNothing | servidor.c:172-175 | a request of white space with at most one word of up to 7 characters is closed without a response |
| Server.Respond | servidor.c:171-189 | the connection is closed without a response exactly when the request line does not parse; a parsed method other than GET gets exactly the 405 response |
| Server.HandleConnection | servidor.c:164-192 | one pass of the accept loop sends exactly the response the dispatch function gives for the bytes read |
| Server.Serve | servidor.c:158-193 | the connections are answered one after the other, each by its own request alone |
| Client.ScanSetEnd | cliente.c:23-24 | a `%N[^c]` conversion takes at most N characters, none of them `c`, and stops at N, at the end or at `c` |
| Client.DigitsEnd | cliente.c:23 | the port digits run up to the first non-digit |
| Client.ScanWithPort | cliente.c:23 | a match starts with `http://`, the host and a `:`; the host has 1 to 99 characters and no `:`, the path 1 to 199 characters and no newline |
| Client.ScanWithoutPort | cliente.c:24 | a match starts with `http://`, the host and the path; the host has 1 to 99 characters and no `/`, the path 1 to 199 characters and no newline, and the port is 80 |
| Client.ParseUrl | cliente.c:23-29 | a parsed URL starts with `http://` and has a host of 1 to 99 characters and a path of 1 to 199 characters without a newline; the host either holds no `:`, or it holds no `/` and the port is 80 |
| Client.ScanWithPortAt | cliente.c:23 | the first form reads the host up to the first `:`, the digits after it as the port, and the rest as the path |
| Client.ParseUrlWithPort | cliente.c:23 | `http://host:port/path` is read back as that host, port and path, even when the host holds `/` |
| Client.ScanWithoutPortAt | cliente.c:24 | the second form reads the host up to the first `/` and the rest as the path, with port 80 |
| Client.ScanWithPortNeedsColon | cliente.c:23 | the first form fails on a URL with no `:` after the scheme |
| Client.ParseUrlWithoutPort | cliente.c:23-29 | `http://host/path` with no colon is read back as that host and path, with port 80 |
| Client.ParseUrlNeedsPath | cliente.c:23-27 | `http://host` without a path is refused |
| Client.ParseUrlNeedsScheme | cliente.c:23-27 | a URL not starting with `http://` is refused |
| Client.OutputName | cliente.c:32-38 | the file name is non-empty and holds no `/`; it is `index.html` when the path has no `/` or ends in one, else the text after the last `/` |
| Client.FormatRequest | cliente.c:65-66 | the request is 44 bytes longer than host and path together |
| Client.RequestFitsBuffer | cliente.c:65-66 | for every URL the parser accepts, the request fits `char request[2048]` |
| Client.FrameResponse | cliente.c:70-97 | an empty read fails with no response. Otherwise the read splits into header and body prefix with nothing lost or repeated. The header is NUL-free and ends at the first `\r\n\r\n`. Any other failure is a malformed header, and then no terminator occurs before the first NUL |
| Client.FirstBlankLineInBuffer | cliente.c:78-81 | the first blank line that `strstr` finds in the C string is the first one in the bytes read |
| Client.FrameAtFirstBlankLine | cliente.c:81-97 | a read that starts with a NUL-free header ending at its first blank line splits exactly there |
| Client.StatusIsOk | cliente.c:89 | the status check passes exactly when the bytes read start with `HTTP/1.1 200 OK` |
| Client.ClientSavesExactlyWhen | cliente.c:23-116 | a file is saved exactly when every step succeeds; a non-200 status only adds the warning |
| Client.ClientRun | cliente.c:23-116 | a request is written exactly when the URL parses, the host resolves and the connection succeeds; a saved file is named after the path; the warning is printed only for a framed header without the 200 status |
| Client.SavedFileIsBody | cliente.c:93-116 | the saved file is the rest of the first read after the header, then the later chunks up to the first failed read, named after the path |
| Client.NoFileWithoutHeader | cliente.c:70-105 | with no response or no blank line the run fails before the output file is created |
| Client.SaveBody | cliente.c:107-116 | the file written is the body prefix followed by every later chunk up to the first failed read |
| Client.RunClient | cliente.c:17-122 | `main` after the argument check produces the outcome of the run's definition |
| Transfer.HeaderBlockEndsAtBlankLine | cliente.c:81 | header lines without CR or NUL, each followed by CR LF, then a blank line, hold no blank line before the last |
| Transfer.FileHeaderIsBlock | servidor.c:99-102 | the file header is the block of its four lines: status, Content-Type, Content-Length, Content-Disposition |
| Transfer.ServedHeaderIsFramed | servidor.c:99-103 | for a servable name the file header starts with `HTTP/1.1 200 OK`, holds no NUL and ends at its first blank line |
| Transfer.RequestIsReadBack | servidor.c:171-172 | the request the client formats for a path of 1 to 1023 characters without white space is parsed by the server as a GET for that same path |
| Transfer.FileRequestIsRouted | servidor.c:186-189 | the client's request for a servable file goes to `send_file` |
| Transfer.ServerSendsFile | servidor.c:164-189 | the server answers the client's request for a file it holds with the full header and the file's bytes |
| Transfer.RestIsBody | cliente.c:93-97 | the bytes after the header, in the first read and in all later reads, are the body |
| Transfer.ClientSavesBody | cliente.c:70-116 | a client whose first read holds a whole 200 header saves everything after it, under the name its path gives, without the warning |
| Transfer.OutputNameOfFile | cliente.c:32-38 | a request for `/name` saves under `name` |
| Transfer.FileUrlIsParsed | cliente.c:23-29 | `http://host/name` is parsed as that host, port 80 and path `/name` |
| Transfer.ClientDownloadsFile | cliente.c:64-116 | the client saves a file's content under its name when the response is its header and content |
| Transfer.DownloadOfServedFile | cliente.c:64-116 | a download of a file the server holds saves exactly that file's content under its own name, however the reads split the response |

## Left out

- Sockets and name resolution are inputs, not calls. This covers `socket`, `setsockopt`, `bind`, `listen`, `accept`, `gethostbyname`, `connect`, `htons` and `close`. The server's retry after a failed `accept` is not modelled: `Server.Serve` takes the accepted connections.
- Every `send` and `write` is taken to send its whole buffer. Their return values are ignored by the code.
- The filesystem is an input (`Server.Disk`). `open` on a directory is just another entry whose reads return nothing.
- The server's command line is not modelled: `access`, `chdir`, `atoi`, the port and the folder. The served directory is whatever `Disk` describes.
- The client's argument-count check is not modelled, and neither is the unchecked `socket` result.
- Diagnostics are not modelled: the startup `printf`, the host/port/path `printf`, `perror` and `fprintf`. Only the non-200 warning is kept, as the `warned` flag. An exit is an error value.
- Client.ParseUrl: `%i` is read as decimal digits. The model does not skip white space, and does not accept a sign, `0x` hex or leading-zero octal. `int` overflow is also left out. `Client.ParseUrlWithPort` therefore requires a port from 1 to 2^31 - 1, whose digits `%i` reads as decimal.
- Client.ClientRun: the port is not checked against 1–65535 and is not truncated by `htons`, because the port only reaches `connect`, which is an input.
- Client.ClientRun: the first read's limit of 2047 bytes and the later reads' limit of 2048 are not imposed on the `Network` inputs. `Transfer.DownloadOfServedFile` requires the first read to fit.
- Server.HandleConnection: the request read's limit of 4095 bytes is not imposed on its input.
- Server.SendEntries: `d_name`'s limit of 255 bytes is not imposed on the entry names. `Server.ListingLine` covers names of any length.
- Server.FileResponse: the size `fstat` reports is a `nat`, unrelated to the chunks except where a lemma says so. The width of `off_t` and the cast to `long` are left out.
- `char` stands for an octet. No encoding of names or contents is modelled.
