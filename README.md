# Platform tools: HTTP GET and directory filters

A Dafny model of the logic inside `PlatformTools.c`, the C module that gives a
Lua environment file, directory and HTTP access. It covers:

- **URL splitting** (`parse_url`): only the exact, case-sensitive prefix
  `http://` (the http scheme of section 3.2.2 of RFC 1945) is accepted. The
  rest is cut at its first `/` into host and path. Without a `/`, the path is
  `"/"`. There is no port handling and no decoding.
- **Request framing** (the `snprintf` in `http_get`): the HTTP/1.0 request line
  of section 5.1 of RFC 1945, a `Host` header and `Connection: close`. The
  request is formatted into a 512-byte array, so at most 511 bytes are sent.
- **Response accumulation** (the read loop of `http_get`): a class
  `ResponseBuffer` with an `array` and a `length`. Each chunk is appended after
  the bytes already held, and a NUL follows the last byte. Whether each `realloc`
  succeeds is chosen by the environment; a failing one frees the buffer and
  fails the exchange.
  A peer that sends nothing leaves the buffer NULL, which the binding reports
  as a failure.
- **Header/body split** (`platform_httpGet`): the body starts after the first
  `"\r\n\r\n"` (the blank line of section 4.1 of RFC 1945), or is the whole
  response. `strstr` and `lua_pushstring` both read C strings, so the search
  and the returned text both stop at the first NUL byte.
- **Dot-entry filtering** (`platform_listDir`, `platform_isDirEmpty`): the
  directory stream is a sequence of names. The listing is that sequence in
  order without `.` and `..`. The emptiness test stops at the first other entry.

All C text is `seq<byte>`, where `byte` is a `char` below 256: one Dafny
character per C `char`. `CStrings` gives the C view of such text (`strlen`,
`strchr`, `strstr`, reading up to a NUL). The network is a `Connection` value:
whether `getaddrinfo`, `socket`, `connect` and `write` succeed, the data of
each read that returns more than zero bytes, and whether the `realloc` for each
of those reads succeeds. A directory stream is `Option<seq<Name>>`, where
`None` is a failed `opendir`; a `Name` holds no NUL, as a `d_name` cannot.

Modules: `Results` (Option, Result), `CStrings`, `Url`, `Request`,
`ResponseBuffers`, `HttpClient`, `Directory`.

Behaviour of `PlatformTools.c` worth noting:

- The code has one error for every failure after parsing: "HTTP GET failed".
  It does not distinguish resolution, connection, send or out-of-memory
  failures. `FetchError` therefore has two cases, `UnsupportedScheme` and
  `GetFailed`.
- A `read` that returns -1 ends the loop just like end of stream. The bytes
  read before it are returned as a success.
- The returned body is cut at its first NUL byte, because it is pushed with
  `lua_pushstring`. It is not every byte after the separator.
- A zero-byte response is a failure, not an empty body.

## Model

| member | source | states |
|---|---|---|
| CStrings.StrLen | PlatformTools.c:144 | `strlen`: the length is the index of the first NUL, or the whole sequence; no NUL comes before it |
| CStrings.CStr | PlatformTools.c:189-193 | the text a C function reads is a NUL-free prefix, and a NUL follows it when it is shorter than the buffer |
| CStrings.CStrOfNoNul | PlatformTools.c:144 | a sequence without a NUL is read whole as a C string |
| CStrings.CStrAppend | PlatformTools.c:193 | a C string read across a NUL-free prefix keeps that prefix whole, and its length adds up |
| CStrings.CStrSuffix | PlatformTools.c:190-193 | reading from a pointer inside a C string gives that string's tail |
| CStrings.IndexOf | PlatformTools.c:102 | `strchr`: absent exactly when the byte does not occur; otherwise the index of the byte with no earlier occurrence |
| CStrings.OccursInTail | PlatformTools.c:189 | an occurrence in the tail of a text is an occurrence in the text one index later, and back |
| CStrings.StrStr | PlatformTools.c:189 | `strstr`: the result is an occurrence with no earlier one; absent exactly when there is no occurrence at all |
| Url.ParseUrl | PlatformTools.c:97-111 | fails exactly when the URL does not start with the 7 bytes `http://`; the host has no `/`, the path starts with `/`; with no `/` after the prefix, host is the remainder and path is `"/"`; otherwise host followed by path is the remainder |
| Url.ParseUnparse | PlatformTools.c:101-108 | parsing `http://` + host + path gives back that host and path, for every host without `/` and every path starting with `/` |
| Url.ParseHostOnly | PlatformTools.c:103-105 | a URL without a path parses to the whole remainder as host and `"/"` as path |
| Url.UnparseParse | PlatformTools.c:99-110 | every accepted URL is rebuilt from its host and path, with a `/` appended when it had no path |
| Url.PortStaysInHost | PlatformTools.c:101-108 | a `:port` suffix is kept in the host and not split off |
| Url.SchemeIsCaseSensitive | PlatformTools.c:99 | every URL starting with an upper-case `HTTP://` is refused |
| Request.Truncate | PlatformTools.c:140-142 | `snprintf` into `size` bytes keeps a prefix of the text, whole when shorter than `size`, otherwise `size - 1` bytes |
| Request.FormatRequest | PlatformTools.c:116-142 | the request is a prefix of `GET <path> HTTP/1.0\r\nHost: <host>\r\nConnection: close\r\n\r\n` shorter than 512 bytes, the whole text when it fits and 511 bytes otherwise, and holds no NUL |
| Request.RequestTextLength | PlatformTools.c:141 | the fixed parts of the request take 44 bytes |
| Request.RequestFitsIff | PlatformTools.c:97-142 | for an accepted URL the request is sent whole exactly when the URL has at most 474 bytes (473 when it has no path) |
| ResponseBuffers.ResponseBuffer.constructor | PlatformTools.c:117-118 | the buffer starts NULL with size 0 |
| ResponseBuffers.ResponseBuffer.Append | PlatformTools.c:151-162 | for a chunk of n > 0 bytes: on success the size grows by exactly n, the old bytes are unchanged, the chunk follows them in order and a NUL follows the last byte in a block of exactly size + 1 bytes; `ok` is the `realloc` outcome passed in, and on failure the buffer is freed |
| HttpClient.ConcatAppend | PlatformTools.c:151-162 | the bytes of two runs of reads are the bytes of the first followed by those of the second |
| HttpClient.ConcatEmpty | PlatformTools.c:151-166 | reads of at least one byte each give no bytes only when there are no reads |
| HttpClient.HttpGet | PlatformTools.c:113-167 | succeeds exactly when resolution, socket, connect, write and every `realloc` succeed and the peer sends at least one byte; a success returns every byte read, in order; the bytes written are the formatted request once connected |
| HttpClient.Body | PlatformTools.c:189-193 | the returned text holds no NUL and is a tail of the response read up to its first NUL |
| HttpClient.BodyAfterHeaders | PlatformTools.c:189-193 | for headers, blank line and body, the returned text is the body up to its first NUL |
| HttpClient.BodyWithoutSeparator | PlatformTools.c:189-193 | a response whose text before its first NUL has no blank line is returned up to that NUL |
| HttpClient.SeparatorAfterNul | PlatformTools.c:189-193 | a blank line that follows a NUL is not found: the text before the NUL is returned whole |
| HttpClient.BodyStopsAtNul | PlatformTools.c:193 | a NUL in the body ends the returned text |
| HttpClient.Fetch | PlatformTools.c:170-196 | `UnsupportedScheme` exactly when the URL, read up to its first NUL, lacks `http://`; `GetFailed` when a system call or a `realloc` fails or the peer sends nothing; `Ok` exactly when the URL is accepted and the exchange succeeds, and then it holds the body of all bytes read; once connected, the request sent is the one formatted from the parsed host and path, and before that nothing is sent |
| Directory.WithoutDotsAppend | PlatformTools.c:215-219 | filtering a stream read in two parts is filtering each part, in order |
| Directory.WithoutDotsMembers | PlatformTools.c:216 | a name is listed exactly when the stream has it and it is neither `.` nor `..` |
| Directory.WithoutDotsCounts | PlatformTools.c:215-219 | each name is listed as often as it occurs in the stream, and `.` and `..` never |
| Directory.WithoutDotsIsSubsequence | PlatformTools.c:215-219 | the listing is an in-order subsequence of the stream |
| Directory.WithoutDotsEmpty | PlatformTools.c:253-263 | nothing is listed exactly when every entry is `.` or `..` |
| Directory.ListDir | PlatformTools.c:207-222 | a failed `opendir` is an error; otherwise the result is the stream in order without `.` and `..` |
| Directory.IsDirEmpty | PlatformTools.c:247-265 | a failed `opendir` is an error; otherwise true exactly when no entry other than `.` or `..` exists, and reading stops right after the first such entry |

## Left out

- Sockets, `getaddrinfo`, `connect`, `write`, `read` and `close` are not modelled as I/O. Their outcomes are fields of `Connection`, and the read data is a sequence of chunks.
- Closing the socket, `freeaddrinfo` and freeing `host`, `path` and the response happen on every path in the source. They release resources only and are not modelled.
- `strdup` and `strndup` in `parse_url` are not checked for NULL in the source. Their failure is not modelled.
- `realloc` is modelled as a fresh array into which the old block is copied. Its outcome is an input (`Connection.allocOk`), one per reply. Memory addresses and in-place growth are not modelled.
- The Lua binding (`luaL_checkstring`, `lua_push*`, `lua_rawseti`, `luaL_error`, library registration at `PlatformTools.c:341-359`) is foreign code. Raised errors are `Err` results. The table built by `platform_listDir` is a sequence whose index k+1 holds element k.
- `readFile`, `writeFile`, `copyFile`, `createJunction`, `fileExists`, `createDir` and `isDir` are thin wrappers over operating-system calls, with nothing to state beyond those calls.
- `copy_directory_recursive` and `copyDir` are recursive file-system I/O. They could only be stated against an invented file system.
- HttpClient.HttpGet: the bound of 1024 bytes per read is a precondition on the chunks (`ReadsWellFormed`, part of `WellFormed`). It is not derived from `read`.
