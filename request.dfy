/**
 * The request `http_get` writes to the socket: an HTTP/1.0 request line
 * (section 5.1 of RFC 1945) with a `Host` and a `Connection: close` header,
 * formatted by `snprintf` into a fixed 512-byte array.
 */
module Request {
  import opened CStrings
  import opened Url

  /** `sizeof(request)`: the framing buffer, which also holds the terminating NUL. */
  const REQUEST_SIZE: nat := 512

  /** The text of the format string before `path`, between `path` and `host`, and after `host`. */
  const METHOD: seq<byte> := "GET "
  const VERSION_HOST: seq<byte> := " HTTP/1.0\r\nHost: "
  const CLOSE_END: seq<byte> := "\r\nConnection: close\r\n\r\n"

  /** The request `snprintf` is asked to format, before any truncation. */
  function RequestText(host: seq<byte>, path: seq<byte>): seq<byte> {
    METHOD + path + VERSION_HOST + host + CLOSE_END
  }

  /** `snprintf(buf, size, ...)` as seen through `strlen(buf)`: at most `size - 1` bytes of `text`. */
  function Truncate(text: seq<byte>, size: nat): (r: seq<byte>)
    requires size > 0
    ensures r <= text
    ensures |r| == if |text| < size then |text| else size - 1
  {
    if |text| < size then text else text[..size - 1]
  }

  /**
   * The request as formatted into `request[512]`, which is also what
   * `strlen(request)` hands to `write`: it holds no NUL.
   */
  function FormatRequest(host: seq<byte>, path: seq<byte>): (r: seq<byte>)
    requires NoNul(host) && NoNul(path)
    ensures |r| < REQUEST_SIZE
    ensures r <= RequestText(host, path)
    ensures |RequestText(host, path)| < REQUEST_SIZE ==> r == RequestText(host, path)
    ensures |RequestText(host, path)| >= REQUEST_SIZE ==> |r| == REQUEST_SIZE - 1
    ensures NoNul(r)
  {
    var text := RequestText(host, path);
    assert NoNul(METHOD) && NoNul(VERSION_HOST) && NoNul(CLOSE_END);
    assert NoNul(text);
    Truncate(text, REQUEST_SIZE)
  }

  /** The fixed parts of the request take 44 bytes; host and path fill the rest. */
  lemma RequestTextLength(host: seq<byte>, path: seq<byte>)
    ensures |RequestText(host, path)| == 44 + |host| + |path|
  {
  }

  /**
   * For a URL that parses, the request is sent whole exactly when the URL is at
   * most 474 bytes long (473 when it has no path, since `"/"` is then added).
   */
  lemma RequestFitsIff(url: seq<byte>)
    requires NoNul(url) && HasScheme(url)
    ensures ParseUrl(url).Some?
    ensures var p := ParseUrl(url).value;
      FormatRequest(p.host, p.path) == RequestText(p.host, p.path) <==>
      |url| <= (if '/' in url[|SCHEME|..] then 474 else 473)
  {
    var p := ParseUrl(url).value;
    RequestTextLength(p.host, p.path);
    if '/' in url[|SCHEME|..] {
      assert |p.host| + |p.path| == |url| - 7;
    } else {
      assert |p.host| + |p.path| == |url| - 6;
    }
  }
}
