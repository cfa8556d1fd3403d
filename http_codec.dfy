/**
 * The text processing of the proxy's request path: splitting an absolute URI into
 * host field, port and file name, downgrading the request's protocol version, reading
 * the request line, building the request sent to the origin server (an HTTP/1.0
 * Request-Line, section 5.1 of RFC 1945, followed by a fixed header block) and
 * classifying file names by content type.
 */
module HttpCodec {
  import opened Wrappers
  import opened CStrings

  const WebPrefix: string := "http://"

  /** The three output buffers of `parse_uri`. */
  datatype UriParts = UriParts(host: string, port: string, filename: string)

  /** The text after the first "http://" of a URI. */
  function AfterPrefix(uri: string): string
    requires Contains(uri, WebPrefix)
  {
    uri[Find(uri, WebPrefix).value + |WebPrefix|..]
  }

  /**
   * The URIs `parse_uri` handles: "http://" occurs, and after it a ':' occurs before the
   * first '/'. On any other URI it does pointer arithmetic on NULL or copies a negative length.
   */
  predicate ParsableUri(uri: string)
  {
    && Contains(uri, WebPrefix)
    && Contains(AfterPrefix(uri), "/")
    && Contains(AfterPrefix(uri), ":")
    && Find(AfterPrefix(uri), ":").value < Find(AfterPrefix(uri), "/").value
  }

  /**
   * Cutting the text after the prefix at its first '/' and its first ':' (which comes
   * first): the host field holds no '/' and its own first ':' is that ':', so the port is
   * what follows it in the host field; the file name starts with the '/'.
   */
  lemma HostFieldSplit(rest: string)
    requires Contains(rest, "/") && Contains(rest, ":")
    requires Find(rest, ":").value < Find(rest, "/").value
    ensures var slash, colon := Find(rest, "/").value, Find(rest, ":").value;
      && rest[..slash] + rest[slash..] == rest
      && rest[slash..] != [] && rest[slash..][0] == '/'
      && '/' !in rest[..slash] && '/' !in rest[colon + 1..slash]
      && Find(rest[..slash], ":") == Some(colon)
      && rest[colon + 1..slash] == rest[..slash][colon + 1..]
  {
    var slash := Find(rest, "/").value;
    var colon := Find(rest, ":").value;
    assert rest[slash] == '/' && forall j :: 0 <= j < slash ==> rest[j] != '/' by {
      OccursAtChar(rest, '/');
    }
    assert '/' !in rest[..slash] && '/' !in rest[colon + 1..slash];
    assert Find(rest[..slash], ":") == Some(colon) by {
      OccursAtChar(rest, ':');
      OccursAtChar(rest[..slash], ':');
      FindIsFirst(rest[..slash], ":", colon);
    }
    assert rest[..slash] + rest[slash..] == rest;
    assert rest[colon + 1..slash] == rest[..slash][colon + 1..];
  }

  /**
   * `parse_uri`: after the first "http://", the host field runs up to the first '/', the port
   * lies between the first ':' and that '/', and the file name is the rest from the '/' on.
   */
  function ParseUri(uri: string): (p: UriParts)
    requires ParsableUri(uri)
    ensures p.host + p.filename == AfterPrefix(uri)
    ensures p.filename != [] && p.filename[0] == '/'
    ensures '/' !in p.host && '/' !in p.port
    ensures Contains(p.host, ":") && p.port == p.host[Find(p.host, ":").value + 1..]
  {
    var rest := AfterPrefix(uri);
    HostFieldSplit(rest);
    var slash, colon := Find(rest, "/").value, Find(rest, ":").value;
    UriParts(rest[..slash], rest[colon + 1..slash], rest[slash..])
  }

  /** The absolute-form request target "http://" hostname ":" port filename. */
  function AbsoluteUri(hostname: string, port: string, filename: string): string
  {
    WebPrefix + hostname + ":" + port + filename
  }

  /** A URI that starts with "http://" has the rest of it as the text after the prefix. */
  lemma AfterLeadingPrefix(rest: string)
    ensures Contains(WebPrefix + rest, WebPrefix) && AfterPrefix(WebPrefix + rest) == rest
  {
    var uri := WebPrefix + rest;
    assert uri[..|WebPrefix|] == WebPrefix;
    FindIsFirst(uri, WebPrefix, 0);
  }

  /** In "hostname:port/filename" the first ':' ends the hostname and the first '/' starts the file name. */
  lemma AuthorityDelimiters(hostname: string, port: string, filename: string)
    requires ':' !in hostname && '/' !in hostname && '/' !in port
    requires filename != [] && filename[0] == '/'
    ensures var rest := hostname + ":" + port + filename;
      && Find(rest, ":") == Some(|hostname|)
      && Find(rest, "/") == Some(|hostname| + 1 + |port|)
  {
    var rest := hostname + ":" + port + filename;
    OccursAtChar(rest, '/');
    OccursAtChar(rest, ':');
    var slash := |hostname| + 1 + |port|;
    assert forall j :: 0 <= j < |hostname| ==> rest[j] == hostname[j];
    assert forall j :: |hostname| < j < slash ==> rest[j] == port[j - |hostname| - 1];
    assert rest[|hostname|] == ':' && rest[slash] == '/';
    FindIsFirst(rest, "/", slash);
    FindIsFirst(rest, ":", |hostname|);
  }

  /** `parse_uri` takes an absolute URI with an explicit port back apart into its fields. */
  lemma ParseAbsoluteUri(hostname: string, port: string, filename: string)
    requires ':' !in hostname && '/' !in hostname && '/' !in port
    requires filename != [] && filename[0] == '/'
    ensures ParsableUri(AbsoluteUri(hostname, port, filename))
    ensures ParseUri(AbsoluteUri(hostname, port, filename)) == UriParts(hostname + ":" + port, port, filename)
  {
    var rest := hostname + ":" + port + filename;
    assert AbsoluteUri(hostname, port, filename) == WebPrefix + rest;
    AfterLeadingPrefix(rest);
    AuthorityDelimiters(hostname, port, filename);
    var slash := |hostname| + 1 + |port|;
    assert rest[..slash] == hostname + ":" + port;
    assert rest[|hostname| + 1..slash] == port;
    assert rest[slash..] == filename;
  }

  /** The name `forward_request` connects to: `strtok(host, ":")`. */
  function ConnectHost(host: string): (r: Option<string>)
    ensures r.None? <==> forall i :: 0 <= i < |host| ==> host[i] == ':'
    ensures r.Some? ==> r.value != [] && ':' !in r.value
    ensures r.Some? && host != [] && host[0] != ':' ==>
      |r.value| <= |host| && r.value == host[..|r.value|] && (|r.value| == |host| || host[|r.value|] == ':')
  {
    FirstToken(host, ':')
  }

  /** For a host field "hostname:port" with a non-empty hostname, the connection goes to hostname. */
  lemma ConnectHostOfField(hostname: string, port: string)
    requires hostname != [] && ':' !in hostname
    ensures ConnectHost(hostname + ":" + port) == Some(hostname)
  {
    FirstTokenOfPrefix(hostname, ':', ":" + port);
    assert hostname + (":" + port) == hostname + ":" + port;
  }

  /**
   * The name the proxy connects to is the part of the host field before its first ':',
   * whenever that part is not empty.
   */
  lemma ConnectHostOfUri(uri: string)
    requires ParsableUri(uri)
    requires Find(ParseUri(uri).host, ":").value > 0
    ensures ConnectHost(ParseUri(uri).host) == Some(ParseUri(uri).host[..Find(ParseUri(uri).host, ":").value])
  {
    var host := ParseUri(uri).host;
    var c := Find(host, ":").value;
    OccursAtChar(host, ':');
    assert host[..c] + host[c..] == host;
    FirstTokenOfPrefix(host[..c], ':', host[c..]);
  }

  const Http11: string := "HTTP/1.1"
  const Http10: string := "HTTP/1.0"

  /**
   * The version rewrite of `handle_request`: the last character of the first "HTTP/1.1"
   * in the line becomes '0'; a line without "HTTP/1.1" is left alone.
   */
  function RewriteVersion(line: string): (r: string)
    ensures |r| == |line|
    ensures !Contains(line, Http11) ==> r == line
    ensures Contains(line, Http11) ==>
      var i := Find(line, Http11).value;
      && OccursAt(r, Http10, i)
      && r[i + 7] == '0'
      && forall j :: 0 <= j < |line| && j != i + 7 ==> r[j] == line[j]
  {
    match Find(line, Http11)
    case None => line
    case Some(i) =>
      var r := line[i + |Http11| - 1 := '0'];
      assert r[i..i + 8] == Http10 by {
        assert line[i..i + 8] == Http11;
        forall k | 0 <= k < 8
          ensures r[i..i + 8][k] == Http10[k]
        {
          assert r[i + k] == if k == 7 then '0' else line[i..i + 8][k];
        }
      }
      r
  }

  /** The characters of "HTTP/1.1" found in a line that holds it at index i. */
  lemma Http11At(s: string, i: nat)
    requires OccursAt(s, Http11, i)
    ensures s[i] == 'H' && s[i + 1] == 'T' && s[i + 2] == 'T' && s[i + 3] == 'P'
    ensures s[i + 4] == '/' && s[i + 5] == '1' && s[i + 6] == '.' && s[i + 7] == '1'
  {
    forall k | 0 <= k < 8
      ensures s[i + k] == Http11[k]
    {
      assert s[i..i + 8][k] == s[i + k];
    }
  }

  /**
   * The rewrite removes exactly the first occurrence of "HTTP/1.1" and creates none: the
   * pattern cannot overlap itself and does not contain '0'.
   */
  lemma RewriteDropsFirstOccurrence(line: string)
    requires Contains(line, Http11)
    ensures forall j: nat ::
      OccursAt(RewriteVersion(line), Http11, j) <==> OccursAt(line, Http11, j) && j != Find(line, Http11).value
  {
    var i := Find(line, Http11).value;
    var r := RewriteVersion(line);
    Http11At(line, i);
    forall j: nat
      ensures OccursAt(r, Http11, j) <==> OccursAt(line, Http11, j) && j != i
    {
      if j + 8 <= |line| {
        if j + 8 <= i + 7 || i + 7 < j {
          assert r[j..j + 8] == line[j..j + 8];
        } else {
          if OccursAt(r, Http11, j) {
            Http11At(r, j);
          }
          if OccursAt(line, Http11, j) && j != i {
            Http11At(line, j);
          }
        }
      }
    }
  }

  /** The first line of a request, as `handle_request` reads it with "%s %s %s". */
  datatype RequestLine = RequestLine(httpMethod: string, uri: string)

  /** A method other than GET: `handle_request` reports it through `unix_error`. */
  datatype RequestError = NotImplemented

  /**
   * `handle_request` up to the cache lookup: rewrite the version, read the method and the
   * URI, and accept only GET in any mix of cases.
   */
  function ParseRequestLine(buf: string): (r: Result<RequestLine, RequestError>)
    requires ReadableRequestLine(buf)
    ensures r.Ok? <==> EqualIgnoringCase(Tokens(RewriteVersion(buf))[0], "GET")
    ensures r.Ok? ==>
      && |r.value.httpMethod| == 3 && r.value.httpMethod[0] in "gG"
      && r.value.httpMethod[1] in "eE" && r.value.httpMethod[2] in "tT"
    ensures r.Ok? ==> r.value == RequestLine(Tokens(RewriteVersion(buf))[0], Tokens(RewriteVersion(buf))[1])
    ensures r.Ok? ==> r.value.uri != [] && NoSpace(r.value.uri)
  {
    var fields := Tokens(RewriteVersion(buf));
    EqualIgnoringCaseGet(fields[0]);
    if EqualIgnoringCase(fields[0], "GET") then Ok(RequestLine(fields[0], fields[1]))
    else Err(NotImplemented)
  }

  /**
   * The request lines `handle_request` reads without touching an uninitialised buffer:
   * `strcasecmp` needs a method field, and a GET goes on to use the URI field.
   */
  predicate ReadableRequestLine(buf: string)
  {
    var fields := Tokens(RewriteVersion(buf));
    |fields| >= 1 && (EqualIgnoringCase(fields[0], "GET") ==> |fields| >= 2)
  }

  /** Both protocol versions are single words. */
  lemma VersionsAreWords()
    ensures NoSpace(Http11) && NoSpace(Http10)
  {
  }

  /** A character inside an occurrence of a pattern is the pattern's character at that offset. */
  lemma CharOfOccurrence(s: string, pat: string, j: nat, p: nat)
    requires OccursAt(s, pat, j) && j <= p < j + |pat|
    ensures s[p] == pat[p - j]
  {
    assert s[j..j + |pat|][p - j] == s[p];
  }

  /** Occurrences that end inside a prefix do not depend on what follows it. */
  lemma OccursInPrefix(s: string, t: string, pat: string, j: nat)
    requires j + |pat| <= |s|
    ensures OccursAt(s + t, pat, j) <==> OccursAt(s, pat, j)
  {
    assert (s + t)[j..j + |pat|] == s[j..j + |pat|];
  }

  /** No occurrence of a pattern covers a character the pattern does not contain. */
  lemma NoOccurrenceAcross(s: string, pat: string, j: nat, p: nat)
    requires j <= p < |s| && p < j + |pat|
    requires forall m :: 0 <= m < |pat| ==> pat[m] != s[p]
    ensures !OccursAt(s, pat, j)
  {
    if OccursAt(s, pat, j) {
      CharOfOccurrence(s, pat, j, p);
    }
  }

  /**
   * A pattern that does not contain the separator and does not occur in the head is
   * first found right after the separator, when the tail starts with it.
   */
  lemma FirstAfterSeparator(head: string, sep: char, tail: string, pat: string)
    requires forall j: nat :: !OccursAt(head, pat, j)
    requires forall m :: 0 <= m < |pat| ==> pat[m] != sep
    requires OccursAt(tail, pat, 0)
    ensures OccursAt(head + [sep] + tail, pat, |head| + 1)
    ensures forall j: nat :: j < |head| + 1 ==> !OccursAt(head + [sep] + tail, pat, j)
  {
    var line := head + [sep] + tail;
    assert line == head + ([sep] + tail);
    var k := |head| + 1;
    assert line[k..k + |pat|] == tail[..|pat|];
    forall j: nat | j < k
      ensures !OccursAt(line, pat, j)
    {
      if j + |pat| <= |head| {
        OccursInPrefix(head, [sep] + tail, pat, j);
      } else {
        NoOccurrenceAcross(line, pat, j, |head|);
      }
    }
  }

  /** `strstr` on such a line finds the pattern right after the separator. */
  lemma FindAfterSeparator(head: string, sep: char, pat: string, rest: string)
    requires !Contains(head, pat)
    requires forall m :: 0 <= m < |pat| ==> pat[m] != sep
    ensures Find(head + [sep] + pat + rest, pat) == Some(|head| + 1)
  {
    var tail := pat + rest;
    assert tail[..|pat|] == pat;
    FirstAfterSeparator(head, sep, tail, pat);
    assert head + [sep] + pat + rest == head + [sep] + tail;
    FindIsFirst(head + [sep] + tail, pat, |head| + 1);
  }

  /** A line "head SP HTTP/1.1 CRLF" whose head does not mention "HTTP/1.1" has its first occurrence in the version field. */
  lemma VersionOfClientLine(head: string)
    requires !Contains(head, Http11)
    ensures Find(head + " " + Http11 + "\r\n", Http11) == Some(|head| + 1)
  {
    VersionsAreWords();
    FindAfterSeparator(head, ' ', Http11, "\r\n");
  }

  /** A line "method SP uri SP version CRLF" reads as exactly those three fields. */
  lemma TokensOfRequestLine(httpMethod: string, uri: string, version: string)
    requires httpMethod != [] && uri != [] && version != []
    requires NoSpace(httpMethod) && NoSpace(uri) && NoSpace(version)
    ensures Tokens(httpMethod + " " + uri + " " + version + "\r\n") == [httpMethod, uri, version]
  {
    var line := httpMethod + " " + uri + " " + version + "\r\n";
    var last := version + ['\r'] + "\n";
    assert line == httpMethod + [' '] + (uri + [' '] + last);
    assert Tokens(last) == [version] by {
      TokensOfWord(version, '\r', "\n");
      assert Tokens("\n") == [];
    }
    assert Tokens(uri + [' '] + last) == [uri, version] by {
      TokensOfWord(uri, ' ', last);
    }
    TokensOfWord(httpMethod, ' ', uri + [' '] + last);
  }

  /**
   * A request line "method SP uri SP HTTP/1.1 CRLF" whose method and URI do not mention
   * "HTTP/1.1" is downgraded to HTTP/1.0 in its version field alone, and reads back as its
   * method and URI when the method is GET.
   */
  lemma ParseClientRequestLine(httpMethod: string, uri: string)
    requires httpMethod != [] && uri != [] && NoSpace(httpMethod) && NoSpace(uri)
    requires !Contains(httpMethod + " " + uri, Http11)
    ensures var line := httpMethod + " " + uri + " " + Http11 + "\r\n";
      && RewriteVersion(line) == httpMethod + " " + uri + " " + Http10 + "\r\n"
      && ReadableRequestLine(line)
      && ParseRequestLine(line) ==
           if EqualIgnoringCase(httpMethod, "GET") then Ok(RequestLine(httpMethod, uri)) else Err(NotImplemented)
  {
    var head := httpMethod + " " + uri;
    VersionOfClientLine(head);
    var line := head + " " + Http11 + "\r\n";
    var rewritten := RewriteVersion(line);
    assert rewritten == head + " " + Http10 + "\r\n";
    VersionsAreWords();
    TokensOfRequestLine(httpMethod, uri, Http10);
  }

  /** A pattern without white space that is absent from the head is not found across a following space either. */
  lemma NotFoundBeforeSpace(head: string, sp: char, rest: string, pat: string)
    requires !Contains(head, pat) && NoSpace(pat) && IsSpace(sp) && |rest| < |pat|
    ensures !Contains(head + [sp] + rest, pat)
  {
    var s := head + [sp] + rest;
    assert s == head + ([sp] + rest);
    forall j: nat
      ensures !OccursAt(s, pat, j)
    {
      if j + |pat| <= |s| {
        if j + |pat| <= |head| {
          OccursInPrefix(head, [sp] + rest, pat, j);
        } else {
          assert s[|head|] == sp;
          NoOccurrenceAcross(s, pat, j, |head|);
        }
      }
    }
  }

  /**
   * A one-word line "m CRLF" whose method is not GET is readable and refused: `sscanf`
   * fills only the method, and `strcasecmp` rejects it before the URI is used.
   */
  lemma ParseOneWordLine(httpMethod: string)
    requires httpMethod != [] && NoSpace(httpMethod) && !Contains(httpMethod, Http11)
    requires !EqualIgnoringCase(httpMethod, "GET")
    ensures var line := httpMethod + "\r\n";
      && RewriteVersion(line) == line
      && ReadableRequestLine(line)
      && ParseRequestLine(line) == Err(NotImplemented)
  {
    var line := httpMethod + "\r\n";
    assert line == httpMethod + ['\r'] + "\n";
    VersionsAreWords();
    NotFoundBeforeSpace(httpMethod, '\r', "\n", Http11);
    assert Tokens(line) == [httpMethod] by {
      TokensOfWord(httpMethod, '\r', "\n");
      assert Tokens("\n") == [];
    }
  }

  const Crlf: string := "\r\n"

  /** The fixed User-Agent header line, without its CRLF. */
  const UserAgent: string :=
    "User-Agent: " + "Mozilla/5.0 " + "(X11; Linux " + "x86_64; " + "rv:10.0.3) " + "Gecko/20120305 " + "Firefox/10.0.3"
  const Connection: string := "Connection: close"
  const ProxyConnection: string := "Proxy-Connection: close"

  const UserAgentHdr: string := UserAgent + Crlf
  const ConnectionHdr: string := Connection + Crlf
  const ProxyConnectionHdr: string := ProxyConnection + Crlf

  /** The fixed header lines are single lines. */
  lemma FixedHeadersOneLine()
    ensures '\r' !in UserAgent && '\r' !in Connection && '\r' !in ProxyConnection
  {
  }

  /** The fixed text around the request's variable parts holds no carriage return. */
  lemma FixedTextOneLine()
    ensures '\r' !in " " && '\r' !in Http10
    ensures '\r' !in "Host: " && '\r' !in "Filename: " && '\r' !in "Method: "
  {
  }

  /**
   * The request `forward_request` sends to the origin server: the request line, then each
   * header line formatted into its own buffer and appended in turn, then an empty line.
   */
  function BuildRequest(httpMethod: string, host: string, filename: string): (r: string)
    ensures r == JoinLines(ForwardedLines(httpMethod, host, filename))
  {
    var requestLine := httpMethod + " " + filename + " " + Http10 + Crlf;
    var hostHdr := "Host: " + host + Crlf;
    var filenameHdr := "Filename: " + filename + Crlf;
    var methodHdr := "Method: " + httpMethod + Crlf;
    JoinEight(httpMethod + " " + filename + " " + Http10, "Host: " + host, "Filename: " + filename,
              "Method: " + httpMethod, UserAgent, Connection, ProxyConnection, "");
    assert "" + Crlf == Crlf;
    requestLine + hostHdr + filenameHdr + methodHdr + UserAgentHdr + ConnectionHdr + ProxyConnectionHdr + Crlf
  }

  /** A message made of the given lines, each ended by CRLF. */
  function JoinLines(lines: seq<string>): string
  {
    if lines == [] then [] else lines[0] + Crlf + JoinLines(lines[1..])
  }

  /** Reading a message line by line: each line ends at the next CRLF; a tail without one is a last line. */
  function SplitLines(s: string): seq<string>
    decreases |s|
  {
    match Find(s, Crlf)
    case Some(i) => [s[..i]] + SplitLines(s[i + 2..])
    case None => if s == [] then [] else [s]
  }

  /** Lines without carriage returns are read back exactly as they were written. */
  lemma {:induction false} SplitJoin(lines: seq<string>)
    requires forall k :: 0 <= k < |lines| ==> '\r' !in lines[k]
    ensures SplitLines(JoinLines(lines)) == lines
  {
    if lines != [] {
      var l := lines[0];
      var s := JoinLines(lines);
      assert s == l + Crlf + JoinLines(lines[1..]);
      assert s[|l|..|l| + 2] == Crlf;
      forall j: nat | j < |l|
        ensures !OccursAt(s, Crlf, j)
      {
        assert s[j] == l[j];
        assert s[j] != '\r';
      }
      FindIsFirst(s, Crlf, |l|);
      assert s[..|l|] == l;
      assert s[|l| + 2..] == JoinLines(lines[1..]);
      SplitJoin(lines[1..]);
    }
  }

  /** The lines of the forwarded request, without their CRLFs, in the order they are sent. */
  function ForwardedLines(httpMethod: string, host: string, filename: string): seq<string>
  {
    [ httpMethod + " " + filename + " " + Http10,
      "Host: " + host,
      "Filename: " + filename,
      "Method: " + httpMethod,
      UserAgent,
      Connection,
      ProxyConnection,
      "" ]
  }

  /** A message of one more line: the message, then that line and its CRLF. */
  lemma {:induction false} JoinLinesSnoc(lines: seq<string>, line: string)
    ensures JoinLines(lines + [line]) == JoinLines(lines) + (line + Crlf)
  {
    if lines == [] {
      assert [] + [line] == [line];
    } else {
      assert (lines + [line])[1..] == lines[1..] + [line];
      JoinLinesSnoc(lines[1..], line);
    }
  }

  /** Eight lines joined: each line followed by its CRLF, in order. */
  lemma JoinEight(a: string, b: string, c: string, d: string, e: string, f: string, g: string, h: string)
    ensures JoinLines([a, b, c, d, e, f, g, h])
      == (a + Crlf) + (b + Crlf) + (c + Crlf) + (d + Crlf) + (e + Crlf) + (f + Crlf) + (g + Crlf) + (h + Crlf)
  {
    assert JoinLines([a]) == a + Crlf by {
      JoinLinesSnoc([], a);
      assert [] + [a] == [a];
    }
    assert JoinLines([a, b]) == JoinLines([a]) + (b + Crlf) by {
      JoinLinesSnoc([a], b);
      assert [a] + [b] == [a, b];
    }
    assert JoinLines([a, b, c]) == JoinLines([a, b]) + (c + Crlf) by {
      JoinLinesSnoc([a, b], c);
      assert [a, b] + [c] == [a, b, c];
    }
    assert JoinLines([a, b, c, d]) == JoinLines([a, b, c]) + (d + Crlf) by {
      JoinLinesSnoc([a, b, c], d);
      assert [a, b, c] + [d] == [a, b, c, d];
    }
    assert JoinLines([a, b, c, d, e]) == JoinLines([a, b, c, d]) + (e + Crlf) by {
      JoinLinesSnoc([a, b, c, d], e);
      assert [a, b, c, d] + [e] == [a, b, c, d, e];
    }
    assert JoinLines([a, b, c, d, e, f]) == JoinLines([a, b, c, d, e]) + (f + Crlf) by {
      JoinLinesSnoc([a, b, c, d, e], f);
      assert [a, b, c, d, e] + [f] == [a, b, c, d, e, f];
    }
    assert JoinLines([a, b, c, d, e, f, g]) == JoinLines([a, b, c, d, e, f]) + (g + Crlf) by {
      JoinLinesSnoc([a, b, c, d, e, f], g);
      assert [a, b, c, d, e, f] + [g] == [a, b, c, d, e, f, g];
    }
    assert JoinLines([a, b, c, d, e, f, g, h]) == JoinLines([a, b, c, d, e, f, g]) + (h + Crlf) by {
      JoinLinesSnoc([a, b, c, d, e, f, g], h);
      assert [a, b, c, d, e, f, g] + [h] == [a, b, c, d, e, f, g, h];
    }
  }

  /**
   * The forwarded request is, line by line, the request line with version HTTP/1.0, then
   * Host, Filename, Method, the fixed User-Agent, Connection and Proxy-Connection headers,
   * then the empty line that ends the header block.
   */
  lemma BuildRequestLines(httpMethod: string, host: string, filename: string)
    requires '\r' !in httpMethod && '\r' !in host && '\r' !in filename
    ensures SplitLines(BuildRequest(httpMethod, host, filename)) == ForwardedLines(httpMethod, host, filename)
  {
    var ls := ForwardedLines(httpMethod, host, filename);
    FixedHeadersOneLine();
    FixedTextOneLine();
    assert forall k :: 0 <= k < |ls| ==> '\r' !in ls[k];
    SplitJoin(ls);
  }

  /** Three words separated by single spaces read as those three fields. */
  lemma TokensOfThreeWords(a: string, b: string, c: string)
    requires a != [] && b != [] && c != [] && NoSpace(a) && NoSpace(b) && NoSpace(c)
    ensures Tokens(a + " " + b + " " + c) == [a, b, c]
  {
    assert a + " " + b + " " + c == a + [' '] + (b + [' '] + c);
    TokensOfWord(a, ' ', b + [' '] + c);
    TokensOfWord(b, ' ', c);
    TokensOfLastWord(c);
  }

  /**
   * The request line of the forwarded request reads as three fields, method, file name
   * and HTTP/1.0, as section 5.1 of RFC 1945 lays out a Request-Line.
   */
  lemma ForwardedRequestLineFields(httpMethod: string, host: string, filename: string)
    requires httpMethod != [] && filename != [] && NoSpace(httpMethod) && NoSpace(filename)
    ensures Tokens(ForwardedLines(httpMethod, host, filename)[0]) == [httpMethod, filename, Http10]
  {
    VersionsAreWords();
    TokensOfThreeWords(httpMethod, filename, Http10);
  }

  /** The extensions `get_filetype` looks for, in the order it tries them, with their content types. */
  const FileTypes: seq<(string, string)> :=
    [(".html", "text/html"), (".gif", "image/gif"), (".png", "image/png"), (".jpg", "image/jpeg")]

  /**
   * `get_filetype`: the type of the first extension in the table that occurs anywhere in
   * the file name, and "text/plain" when none does.
   */
  function GetFiletype(filename: string): (t: string)
    ensures forall k :: 0 <= k < |FileTypes| ==>
      (t == FileTypes[k].1 <==>
         Contains(filename, FileTypes[k].0) && forall m :: 0 <= m < k ==> !Contains(filename, FileTypes[m].0))
    ensures t == "text/plain" <==> forall k :: 0 <= k < |FileTypes| ==> !Contains(filename, FileTypes[k].0)
  {
    assert |FileTypes| == 4;
    assert FileTypes[0] == (".html", "text/html") && FileTypes[1] == (".gif", "image/gif");
    assert FileTypes[2] == (".png", "image/png") && FileTypes[3] == (".jpg", "image/jpeg");
    if Contains(filename, ".html") then "text/html"
    else if Contains(filename, ".gif") then "image/gif"
    else if Contains(filename, ".png") then "image/png"
    else if Contains(filename, ".jpg") then "image/jpeg"
    else "text/plain"
  }
}
