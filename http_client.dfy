/**
 * The HTTP GET path of the platform tools: `http_get`, which frames the
 * request and drains the socket into a response buffer, and the binding
 * `platform_httpGet`, which parses the URL and strips the header block.
 * The network is abstracted as a `Connection`: the outcome of each system
 * call and the data successive reads return.
 */
module HttpClient {
  import opened Results
  import opened CStrings
  import opened Url
  import opened Request
  import opened ResponseBuffers

  /** `char buffer[1024]`: no read returns more than this. */
  const READ_SIZE: nat := 1024

  /**
   * What the peer and the operating system do in one exchange: whether
   * `getaddrinfo`, `socket` and `connect` succeed, whether `write` returns
   * without an error (a short write counts as success), and the data of
   * every read that returns more than zero bytes. The stream ends at the first
   * read that returns 0 (the peer closed) or -1 (an error). `allocOk[k]` says
   * whether the `realloc` for reply `k` succeeds.
   */
  datatype Connection = Connection(
    resolved: bool,
    socketOpened: bool,
    connected: bool,
    written: bool,
    replies: seq<seq<byte>>,
    allocOk: seq<bool>)

  /** Every reply is what one successful `read` of at most `READ_SIZE` bytes can return. */
  predicate ReadsWellFormed(replies: seq<seq<byte>>) {
    forall k :: 0 <= k < |replies| ==> 0 < |replies[k]| <= READ_SIZE
  }

  /** The replies are well formed and each has its `realloc` outcome. */
  predicate WellFormed(conn: Connection) {
    ReadsWellFormed(conn.replies) && |conn.allocOk| == |conn.replies|
  }

  /** Every `realloc` of the read loop succeeds. */
  predicate AllAllocated(conn: Connection) {
    forall k :: 0 <= k < |conn.allocOk| ==> conn.allocOk[k]
  }

  /** The connection is set up and the request written: the read loop runs. */
  predicate Established(conn: Connection) {
    conn.resolved && conn.socketOpened && conn.connected && conn.written
  }

  /** The chunks one after the other, in the order they were read. */
  function Concat(chunks: seq<seq<byte>>): seq<byte> {
    if chunks == [] then [] else Concat(chunks[..|chunks| - 1]) + chunks[|chunks| - 1]
  }

  /** Concatenation distributes over splitting the chunk sequence. */
  lemma {:induction false} ConcatAppend(a: seq<seq<byte>>, b: seq<seq<byte>>)
    ensures Concat(a + b) == Concat(a) + Concat(b)
    decreases |b|
  {
    if b == [] {
      assert a + b == a;
    } else {
      assert (a + b)[..|a + b| - 1] == a + b[..|b| - 1];
      ConcatAppend(a, b[..|b| - 1]);
    }
  }

  /** Chunks of at least one byte concatenate to nothing only when there are none. */
  lemma {:induction false} ConcatEmpty(chunks: seq<seq<byte>>)
    requires ReadsWellFormed(chunks)
    ensures Concat(chunks) == [] <==> chunks == []
    ensures |Concat(chunks)| >= |chunks|
  {
    if chunks != [] {
      ConcatEmpty(chunks[..|chunks| - 1]);
    }
  }

  /**
   * `http_get`: `None` is its NULL return. `sent` is what was handed to
   * `write` (nothing when no connection was made). The exchange succeeds
   * exactly when every system call and every `realloc` succeeds and at least
   * one byte is read, and then returns every byte read, in order.
   */
  method HttpGet(host: seq<byte>, path: seq<byte>, conn: Connection)
    returns (response: Option<seq<byte>>, sent: seq<byte>)
    requires NoNul(host) && NoNul(path)
    requires WellFormed(conn)
    ensures conn.resolved && conn.socketOpened && conn.connected ==> sent == FormatRequest(host, path)
    ensures !(conn.resolved && conn.socketOpened && conn.connected) ==> sent == []
    ensures !Established(conn) ==> response == None
    ensures Established(conn) && conn.replies == [] ==> response == None
    ensures response.Some? <==> Established(conn) && conn.replies != [] && AllAllocated(conn)
    ensures response.Some? ==> response.value == Concat(conn.replies) && response.value != []
  {
    sent := [];
    if !conn.resolved {
      return None, sent;
    }
    if !conn.socketOpened {
      return None, sent;
    }
    if !conn.connected {
      return None, sent;
    }
    var request := FormatRequest(host, path);
    CStrOfNoNul(request);
    sent := CStr(request);
    if !conn.written {
      return None, sent;
    }
    var buffer := new ResponseBuffer();
    var i := 0;
    while i < |conn.replies|
      invariant 0 <= i <= |conn.replies|
      invariant fresh(buffer) && buffer.Valid()
      invariant buffer.Contents() == Concat(conn.replies[..i])
      invariant buffer.data == null <==> i == 0
      invariant forall k :: 0 <= k < i ==> conn.allocOk[k]
    {
      var ok := buffer.Append(conn.replies[i], conn.allocOk[i]);
      if !ok {
        return None, sent;
      }
      assert conn.replies[..i + 1] == conn.replies[..i] + [conn.replies[i]];
      ConcatAppend(conn.replies[..i], [conn.replies[i]]);

      var single: seq<seq<byte>> := [conn.replies[i]];
      assert Concat(single) == conn.replies[i] by {
        assert single[..0] == [];
      }
      i := i + 1;
    }
    assert conn.replies[..i] == conn.replies;
    if buffer.data == null {
      return None, sent;
    }
    ConcatEmpty(conn.replies);
    response := Some(buffer.Contents());
  }

  /** The blank line that ends the header block (section 4.1 of RFC 1945). */
  const HEADER_END: seq<byte> := "\r\n\r\n"

  /**
   * The text `platform_httpGet` returns from a response: `strstr` looks for
   * the blank line in the response read as a C string, and `lua_pushstring`
   * copies from just after it (or from the start) up to the next NUL.
   */
  function Body(response: seq<byte>): (body: seq<byte>)
    ensures NoNul(body) && |body| <= |CStr(response)|
    ensures CStr(response)[|CStr(response)| - |body|..] == body
  {
    match StrStr(CStr(response), HEADER_END)
    case Some(i) =>
      CStrSuffix(response, i + 4);
      CStr(response[i + 4..])
    case None => CStr(response)
  }

  /** The separator does not begin inside the header block `h`, not even overlapping its end. */
  predicate HeaderBlock(h: seq<byte>) {
    forall j: nat :: j < |h| ==> !OccursAt(h + HEADER_END, HEADER_END, j)
  }

  /**
   * A response made of a header block, the blank line and a body: the text
   * returned is the body, up to its first NUL.
   */
  lemma BodyAfterHeaders(h: seq<byte>, b: seq<byte>)
    requires NoNul(h) && HeaderBlock(h)
    ensures Body(h + HEADER_END + b) == CStr(b)
  {
    var response := h + HEADER_END + b;
    assert NoNul(HEADER_END);
    assert NoNul(h + HEADER_END);
    CStrAppend(h + HEADER_END, b);
    var text := CStr(response);
    assert text == h + HEADER_END + CStr(b);
    assert OccursAt(text, HEADER_END, |h|) by {
      assert text[|h|..|h| + 4] == HEADER_END;
    }
    forall j: nat | j < |h|
      ensures !OccursAt(text, HEADER_END, j)
    {
      assert !OccursAt(h + HEADER_END, HEADER_END, j);
      assert text[j..j + 4] == (h + HEADER_END)[j..j + 4];
    }
    assert StrStr(text, HEADER_END) == Some(|h|);
    assert response[|h| + 4..] == b;
  }

  /** Without a blank line before its first NUL, a response is returned up to that NUL. */
  lemma BodyWithoutSeparator(response: seq<byte>)
    requires forall j: nat :: !OccursAt(CStr(response), HEADER_END, j)
    ensures Body(response) == CStr(response)
  {
  }

  /** `strstr` stops at the first NUL: a blank line after it is not found. */
  lemma SeparatorAfterNul(t: seq<byte>, b: seq<byte>)
    requires NoNul(t) && forall j: nat :: !OccursAt(t, HEADER_END, j)
    ensures Body(t + [NUL] + HEADER_END + b) == t
  {
    assert t + [NUL] + HEADER_END + b == t + ([NUL] + HEADER_END + b);
    CStrAppend(t, [NUL] + HEADER_END + b);
    assert StrLen([NUL] + HEADER_END + b) == 0;
  }

  /** A NUL in the body ends the text returned, whatever follows it. */
  lemma BodyStopsAtNul(h: seq<byte>, b: seq<byte>, rest: seq<byte>)
    requires NoNul(h) && HeaderBlock(h) && NoNul(b)
    ensures Body(h + HEADER_END + b + [NUL] + rest) == b
  {
    var tail := b + ([NUL] + rest);
    assert h + HEADER_END + b + [NUL] + rest == h + HEADER_END + tail;
    BodyAfterHeaders(h, tail);
    assert CStr(tail) == b by {
      CStrAppend(b, [NUL] + rest);
      assert StrLen([NUL] + rest) == 0;
    }
  }

  /** The errors `platform_httpGet` raises into the scripting environment. */
  datatype FetchError =
    | UnsupportedScheme  // "Only http:// URLs are supported"
    | GetFailed          // "HTTP GET failed"

  /**
   * `platform_httpGet(url)`: the URL is read as a C string, parsed, fetched
   * and stripped of its header block. Every failure of the exchange, an
   * empty response included, is the one error `GetFailed`.
   */
  method Fetch(url: seq<byte>, conn: Connection) returns (r: Result<seq<byte>, FetchError>, sent: seq<byte>)
    requires WellFormed(conn)
    ensures r == Err(UnsupportedScheme) <==> !HasScheme(CStr(url))
    ensures !(HasScheme(CStr(url)) && conn.resolved && conn.socketOpened && conn.connected) ==> sent == []
    ensures HasScheme(CStr(url)) && conn.resolved && conn.socketOpened && conn.connected ==>
              var p := ParseUrl(CStr(url)).value; sent == FormatRequest(p.host, p.path)
    ensures HasScheme(CStr(url)) && !Established(conn) ==> r == Err(GetFailed)
    ensures HasScheme(CStr(url)) && conn.replies == [] ==> r == Err(GetFailed)
    ensures HasScheme(CStr(url)) && !AllAllocated(conn) ==> r == Err(GetFailed)
    ensures r.Ok? <==> HasScheme(CStr(url)) && Established(conn) && conn.replies != [] && AllAllocated(conn)
    ensures r.Ok? ==> r.value == Body(Concat(conn.replies))
  {
    sent := [];
    var parsed := ParseUrl(CStr(url));
    if parsed.None? {
      return Err(UnsupportedScheme), sent;
    }
    var response;
    response, sent := HttpGet(parsed.value.host, parsed.value.path, conn);
    if response.None? {
      return Err(GetFailed), sent;
    }
    r := Ok(Body(response.value));
  }
}
