/**
 * `parse_url` of the platform tools: splitting an `http://` URL into the host
 * to connect to and the path to request. No port, no percent-decoding.
 */
module Url {
  import opened Results
  import opened CStrings

  /** The only scheme accepted, compared byte for byte and case-sensitively. */
  const SCHEME: seq<byte> := "http://"

  /** The host and path of an accepted URL, each a fresh C string. */
  datatype ParsedUrl = ParsedUrl(host: seq<byte>, path: seq<byte>)

  /** `strncmp(url, "http://", 7) == 0` for a NUL-terminated `url`. */
  predicate HasScheme(url: seq<byte>) {
    |url| >= |SCHEME| && url[..|SCHEME|] == SCHEME
  }

  /**
   * `parse_url`: `None` is its -1 return. The remainder after the scheme is cut
   * at its first `/`; without one, the path is `"/"`.
   */
  function ParseUrl(url: seq<byte>): (r: Option<ParsedUrl>)
    requires NoNul(url)
    ensures r.None? <==> !HasScheme(url)
    ensures r.Some? ==> NoNul(r.value.host) && NoNul(r.value.path)
    ensures r.Some? ==> '/' !in r.value.host && |r.value.path| > 0 && r.value.path[0] == '/'
    ensures r.Some? && '/' !in url[|SCHEME|..] ==>
              r.value.host == url[|SCHEME|..] && r.value.path == "/"
    ensures r.Some? && '/' in url[|SCHEME|..] ==> r.value.host + r.value.path == url[|SCHEME|..]
  {
    if !HasScheme(url) then None
    else
      var rest := url[|SCHEME|..];
      match IndexOf(rest, '/')
      case None => Some(ParsedUrl(rest, "/"))
      case Some(i) =>
        assert rest[..i] + rest[i..] == rest;
        Some(ParsedUrl(rest[..i], rest[i..]))
  }

  /** The URL a parsed pair stands for when its path was given explicitly. */
  function Unparse(p: ParsedUrl): seq<byte> {
    SCHEME + p.host + p.path
  }

  /** Parsing undoes `Unparse` for every host without `/` and every path starting with `/`. */
  lemma ParseUnparse(host: seq<byte>, path: seq<byte>)
    requires NoNul(host) && NoNul(path)
    requires '/' !in host && |path| > 0 && path[0] == '/'
    ensures NoNul(Unparse(ParsedUrl(host, path)))
    ensures ParseUrl(Unparse(ParsedUrl(host, path))) == Some(ParsedUrl(host, path))
  {
    var url := Unparse(ParsedUrl(host, path));
    assert url[..|SCHEME|] == SCHEME && url[|SCHEME|..] == host + path;
    assert (host + path)[|host|] == '/';
    var r := ParseUrl(url);
    assert r.value.host + r.value.path == host + path;
    assert IndexOf(host + path, '/') == Some(|host|);
  }

  /** Without a path, parsing yields the whole remainder as host and `"/"` as path. */
  lemma ParseHostOnly(host: seq<byte>)
    requires NoNul(host) && '/' !in host
    ensures NoNul(SCHEME + host)
    ensures ParseUrl(SCHEME + host) == Some(ParsedUrl(host, "/"))
  {
    assert (SCHEME + host)[|SCHEME|..] == host;
  }

  /** Parsing then unparsing gives back the URL, with a `/` appended when it had no path. */
  lemma UnparseParse(url: seq<byte>)
    requires NoNul(url) && HasScheme(url)
    ensures ParseUrl(url).Some?
    ensures Unparse(ParseUrl(url).value) == if '/' in url[|SCHEME|..] then url else url + "/"
  {
    var rest := url[|SCHEME|..];
    assert url == SCHEME + rest;
    var p := ParseUrl(url).value;
    if '/' in rest {
      assert SCHEME + p.host + p.path == SCHEME + (p.host + p.path);
    } else {
      assert Unparse(p) == SCHEME + rest + "/";
    }
  }

  /**
   * A `:port` suffix is not split off: it stays in the host, so
   * `http://example.com:8080/x` asks for host `example.com:8080`.
   */
  lemma PortStaysInHost(name: seq<byte>, port: seq<byte>, path: seq<byte>)
    requires NoNul(name + [':'] + port + path)
    requires '/' !in name && '/' !in port && |path| > 0 && path[0] == '/'
    ensures ParseUrl(SCHEME + name + [':'] + port + path) == Some(ParsedUrl(name + [':'] + port, path))
  {
    var host := name + [':'] + port;
    assert NoNul(host) && NoNul(path) && '/' !in host by {
      assert host + path == name + [':'] + port + path;
      forall c | c in host ensures c != NUL { assert c in host + path; }
      forall c | c in path ensures c != NUL { assert c in host + path; }
    }
    assert SCHEME + name + [':'] + port + path == Unparse(ParsedUrl(host, path));
    ParseUnparse(host, path);
  }

  /** The scheme is matched case-sensitively: an upper-case `HTTP://` is refused. */
  lemma SchemeIsCaseSensitive(rest: seq<byte>)
    requires NoNul("HTTP://" + rest)
    ensures ParseUrl("HTTP://" + rest) == None
  {
    assert ("HTTP://" + rest)[0] == 'H';
  }
}
