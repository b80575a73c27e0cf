/**
 * The request line of an HTTP/1.1 request in absolute form (section 3 and
 * section 3.2.2 of RFC 9112) as ParsedRequest_parse reads it and
 * ParsedRequest_printRequestLine writes it.
 *
 * The parser is a chain of strtok_r calls over a copy of the request line.
 * Every quirk of that chain is kept: the "://" passed to strtok_r is a set
 * of delimiter characters, the version is whatever follows the space that
 * ends the target, and the "missing path" check compares the host token
 * with the length of a C string read at a fixed offset of the target, after
 * strtok_r has written a NUL into it.
 */
module RequestLines {
  import opened Wrappers
  import opened CStrings

  const Space: set<char> := {' '}
  /** The delimiter argument "://" of strtok_r: the characters ':' and '/'. */
  const SchemeDelims: set<char> := {':', '/'}
  const Slash: set<char> := {'/'}
  const Colon: set<char> := {':'}

  /** The request-line fields of `struct ParsedRequest`; `port` is NULL when absent. */
  datatype RequestLine = RequestLine(
    httpMethod: string,
    protocol: string,
    host: string,
    port: Option<string>,
    path: string,
    version: string)

  /** Each early `return -1` of the request-line part of ParsedRequest_parse. */
  datatype LineError =
    | NotGet       // no first token, or it is not "GET"
    | NoTarget     // no second token
    | NoVersion    // the target is the last token (see README, Findings)
    | BadVersion   // the version does not start with "HTTP/"
    | NoProtocol   // the target holds only ':' and '/' characters
    | NoPath       // no host token, or it spans the whole remainder
    | DoubleSlash  // the path token starts with '/'
    | NoHost       // the host:port token holds only ':' characters

  /**
   * The target as it sits in memory once strtok_r has cut the protocol off:
   * the delimiter that ended the protocol token is now a NUL.
   */
  function CutTarget(target: string, proto: Token): (image: string)
    requires proto == StrTok(target, SchemeDelims) && proto.Token?
    ensures |image| == |target|
  {
    if proto.cut then
      var i := Span(target, SchemeDelims) + |proto.text|;
      target[..i] + ['\0'] + target[i + 1..]
    else target
  }

  /**
   * `rem` of ParsedRequest_parse: the C string at `full_addr + strlen(protocol) + 3`.
   * The memory from `full_addr` on is the cut target, the NUL that ended the
   * target, the version, and the NUL that ends the copied request line.
   */
  function Remainder(target: string, proto: Token, version: string): (rem: string)
    requires proto == StrTok(target, SchemeDelims) && proto.Token?
    requires |version| >= 5
  {
    CStrAt(CutTarget(target, proto) + ['\0'] + version + ['\0'], |proto.text| + 3)
  }

  /** The parts of an absolute-form target that ParsedRequest_parse keeps. */
  datatype Target = Target(protocol: string, host: string, port: Option<string>, path: string)

  /** The path the parser rebuilds from the token after the host: "/" when there is none, else "/" and the token. */
  function PathOf(p: Token): (path: string)
    requires !(p.Token? && HasPrefix(p.text, "/"))
    ensures HasPrefix(path, "/") && !HasPrefix(path[1..], "/")
  {
    if p.NoToken? then "/" else
      assert ("/" + p.text)[1..] == p.text;
      "/" + p.text
  }

  /**
   * The target part of ParsedRequest_parse (proxy_parse.c:293-342): `target`
   * is the second token and `version` what follows the space after it.
   */
  function ParseTarget(target: string, version: string): (r: Result<Target, LineError>)
    requires |version| >= 5
    ensures r.Ok? ==> r.value.protocol != [] && AvoidsAll(r.value.protocol, SchemeDelims)
    ensures r.Ok? ==> r.value.host != [] && AvoidsAll(r.value.host, Colon)
    ensures r.Ok? ==> HasPrefix(r.value.path, "/") && !HasPrefix(r.value.path[1..], "/")
  {
    var proto := StrTok(target, SchemeDelims);
    if proto.NoToken? then Err(NoProtocol)
    else
      var rem := Remainder(target, proto, version);
      var host := StrTok(proto.rest, Slash);
      if host.NoToken? || |host.text| == |rem| then Err(NoPath)
      else
        var p := StrTok(host.rest, Space);
        if p.Token? && HasPrefix(p.text, "/") then Err(DoubleSlash)
        else
          var path := PathOf(p);
          var h := StrTok(host.text, Colon);
          if h.NoToken? then Err(NoHost)
          else
            var port := StrTok(h.rest, Slash);
            Ok(Target(proto.text, h.text, if port.NoToken? then None else Some(port.text), path))
  }

  /** The request-line part of ParsedRequest_parse (proxy_parse.c:266-342), on the line without its CRLF. */
  function ParseLine(line: string): (r: Result<RequestLine, LineError>)
    ensures r.Ok? ==> r.value.httpMethod == "GET" && HasPrefix(r.value.version, "HTTP/")
  {
    var m := StrTok(line, Space);
    if m.NoToken? || m.text != "GET" then Err(NotGet)
    else
      var target := StrTok(m.rest, Space);
      if target.NoToken? then Err(NoTarget)
      else if !target.cut then Err(NoVersion)
      else
        var version := target.rest;
        if !HasPrefix(version, "HTTP/") then Err(BadVersion)
        else
          match ParseTarget(target.text, version)
          case Err(e) => Err(e)
          case Ok(t) => Ok(RequestLine(m.text, t.protocol, t.host, t.port, t.path, version))
  }

  function PortSuffix(port: Option<string>): string {
    match port
    case None => ""
    case Some(p) => ":" + p
  }

  /** The request line ParsedRequest_printRequestLine writes, without its CRLF. */
  function LineText(rl: RequestLine): string {
    rl.httpMethod + " " + rl.protocol + "://" + rl.host + PortSuffix(rl.port) + rl.path + " " + rl.version
  }

  /** The bytes ParsedRequest_printRequestLine writes. */
  function FormatRequestLine(rl: RequestLine): string {
    LineText(rl) + "\r\n"
  }

  /**
   * The request line as the printer writes it, one field after the other,
   * starting from the nothing written before the first memcpy (hence the
   * leading ""): a proof step for ProxyParse.ParsedRequest.WriteRequestLine.
   */
  lemma FormatRequestLinePieces(rl: RequestLine)
    ensures "" + rl.httpMethod + " " + rl.protocol + "://" + rl.host + PortSuffix(rl.port)
      + rl.path + " " + rl.version + "\r\n" == FormatRequestLine(rl)
  {
    assert "" + rl.httpMethod == rl.httpMethod;
  }

  /** ParsedRequest_requestLineLen for a parsed request: exactly the bytes the printer writes. */
  function RequestLineLength(rl: RequestLine): (n: nat)
    ensures n == |FormatRequestLine(rl)|
  {
    var len := |rl.httpMethod| + 1 + |rl.protocol| + 3 + |rl.host| + 1 + |rl.version| + 2;
    var len := if rl.port.Some? then len + |rl.port.value| + 1 else len;
    len + |rl.path|
  }

  /** No CR, LF or NUL: the field cannot end the line or the C string early. */
  predicate Plain(s: string) {
    NoNul(s) && Avoids(s, '\r') && Avoids(s, '\n')
  }

  lemma PlainConcat(a: string, b: string)
    requires Plain(a) && Plain(b)
    ensures Plain(a + b)
  {
  }

  /** The request lines that ParseLine reads back exactly from their printed form. */
  predicate WellFormed(rl: RequestLine) {
    && rl.httpMethod == "GET"
    && rl.protocol != [] && AvoidsAll(rl.protocol, {':', '/', ' '})
    && rl.host != [] && AvoidsAll(rl.host, {':', '/', ' '})
    && (rl.port.Some? ==> rl.port.value != [] && AvoidsAll(rl.port.value, {'/', ' '}))
    && HasPrefix(rl.path, "/") && AvoidsAll(rl.path, {' '}) && !HasPrefix(rl.path[1..], "/")
    && HasPrefix(rl.version, "HTTP/")
    && Plain(rl.protocol) && Plain(rl.host) && Plain(PortSuffix(rl.port)) && Plain(rl.path) && Plain(rl.version)
  }

  // ---------------------------------------------------------------------
  // Round trip

  /** The target as printed: protocol "://" host [":" port] path. */
  function TargetText(rl: RequestLine): string {
    rl.protocol + "://" + rl.host + PortSuffix(rl.port) + rl.path
  }

  lemma HostPortAvoids(rl: RequestLine)
    requires WellFormed(rl)
    ensures AvoidsAll(rl.host + PortSuffix(rl.port), {'/', ' '})
    ensures NoNul(rl.host + PortSuffix(rl.port) + rl.path)
    ensures AvoidsAll(TargetText(rl), Space)
  {
    var hp := rl.host + PortSuffix(rl.port);
    assert AvoidsAll(rl.host, {'/', ' '});
    assert AvoidsAll(PortSuffix(rl.port), {'/', ' '});
    AvoidsAllConcat(rl.host, PortSuffix(rl.port), {'/', ' '});
    NoNulConcat(rl.host, PortSuffix(rl.port));
    NoNulConcat(hp, rl.path);
    assert AvoidsAll(rl.protocol, Space) && AvoidsAll("://", Space) && AvoidsAll(hp, Space);
    AvoidsAllConcat(rl.protocol, "://", Space);
    AvoidsAllConcat(rl.protocol + "://", hp, Space);
    AvoidsAllConcat(rl.protocol + "://" + hp, rl.path, Space);
  }

  /** strtok_r(full_addr, "://") stops at the ':' of "://", and `rem` is everything after "://". */
  lemma SchemeAndRemainder(protocol: string, rest: string, version: string)
    requires protocol != [] && AvoidsAll(protocol, SchemeDelims)
    requires NoNul(rest) && |version| >= 5
    ensures StrTok(protocol + "://" + rest, SchemeDelims) == Token(protocol, "//" + rest, true)
    ensures |Remainder(protocol + "://" + rest, StrTok(protocol + "://" + rest, SchemeDelims), version)| == |rest|
  {
    var fa := protocol + "://" + rest;
    var after := "//" + rest;
    assert fa == protocol + [':'] + after;
    StrTokCut(protocol, ':', after, SchemeDelims);
    var proto := StrTok(fa, SchemeDelims);
    SpanNone(fa, SchemeDelims);
    var image := CutTarget(fa, proto);
    assert image == protocol + ['\0'] + after;
    var mem := image + ['\0'] + version + ['\0'];
    var k := |protocol| + 3;
    assert mem[k..] == rest + ['\0'] + (version + ['\0']);
    CStrAtBefore(mem, k, rest, version + ['\0']);
  }

  /** strtok_r(NULL, "/") after the protocol skips "//" and returns host[:port], cut at the path's '/'. */
  lemma HostToken(hp: string, path: string)
    requires hp != [] && AvoidsAll(hp, Slash)
    requires HasPrefix(path, "/")
    ensures StrTok("//" + (hp + path), Slash) == Token(hp, path[1..], true)
  {
    StrTokSkip("//", hp + path, Slash);
    assert hp + path == hp + ['/'] + path[1..];
    StrTokCut(hp, '/', path[1..], Slash);
  }

  /** strtok_r(NULL, " ") on what follows the path's first '/': the path comes back with its '/'. */
  lemma PathToken(path: string)
    requires HasPrefix(path, "/") && AvoidsAll(path, Space) && !HasPrefix(path[1..], "/")
    ensures var p := StrTok(path[1..], Space);
      && !(p.Token? && HasPrefix(p.text, "/"))
      && PathOf(p) == path
  {
    var tail := path[1..];
    assert path == "/" + tail;
    if tail == [] {
      StrTokEmpty(Space);
    } else {
      assert AvoidsAll(tail, Space);
      StrTokWhole(tail, Space);
    }
  }

  /** strtok_r(host, ":") and strtok_r(NULL, "/") split host[:port] back into host and port. */
  lemma HostAndPort(host: string, port: Option<string>)
    requires host != [] && AvoidsAll(host, Colon)
    requires port.Some? ==> port.value != [] && AvoidsAll(port.value, Slash)
    ensures var h := StrTok(host + PortSuffix(port), Colon);
      && h.Token? && h.text == host
      && (var p := StrTok(h.rest, Slash); (if p.NoToken? then None else Some(p.text)) == port)
  {
    match port
    case None =>
      assert host + PortSuffix(port) == host;
      StrTokWhole(host, Colon);
      StrTokEmpty(Slash);
    case Some(p) =>
      ConcatAssoc(host, [':'], p);
      StrTokCut(host, ':', p, Colon);
      StrTokWhole(p, Slash);
  }

  /** ParseTarget, read off the results of its strtok_r calls. */
  lemma ParseTargetFromTokens(fa: string, version: string, t: Target, after: string, hp: string)
    requires |version| >= 5 && |t.path| >= 1
    requires StrTok(fa, SchemeDelims) == Token(t.protocol, after, true)
    requires StrTok(after, Slash) == Token(hp, t.path[1..], true)
    requires |hp| != |Remainder(fa, StrTok(fa, SchemeDelims), version)|
    requires var p := StrTok(t.path[1..], Space);
      && !(p.Token? && HasPrefix(p.text, "/"))
      && PathOf(p) == t.path
    requires var h := StrTok(hp, Colon);
      && h.Token? && h.text == t.host
      && (var p := StrTok(h.rest, Slash); (if p.NoToken? then None else Some(p.text)) == t.port)
    ensures ParseTarget(fa, version) == Ok(t)
  {
  }

  /** Parsing a printed well-formed target gives back protocol, host, port and path. */
  lemma ParseTargetRoundTrip(rl: RequestLine)
    requires WellFormed(rl)
    ensures ParseTarget(TargetText(rl), rl.version) == Ok(Target(rl.protocol, rl.host, rl.port, rl.path))
  {
    var hp := rl.host + PortSuffix(rl.port);
    var fa := TargetText(rl);
    var t := Target(rl.protocol, rl.host, rl.port, rl.path);
    HostPortAvoids(rl);
    assert AvoidsAll(rl.protocol, SchemeDelims);
    ConcatAssoc(rl.protocol + "://", rl.host, PortSuffix(rl.port));
    ConcatAssoc(rl.protocol + "://", hp, rl.path);
    SchemeAndRemainder(rl.protocol, hp + rl.path, rl.version);
    assert AvoidsAll(hp, Slash);
    HostToken(hp, rl.path);
    PathToken(rl.path);
    assert AvoidsAll(rl.host, Colon);
    assert rl.port.Some? ==> AvoidsAll(rl.port.value, Slash);
    HostAndPort(rl.host, rl.port);
    ParseTargetFromTokens(fa, rl.version, t, "//" + (hp + rl.path), hp);
  }

  /** Parsing the printed request line of a well-formed request gives back every field. */
  lemma {:induction false} ParseFormatRoundTrip(rl: RequestLine)
    requires WellFormed(rl)
    ensures ParseLine(LineText(rl)) == Ok(rl)
  {
    var fa := TargetText(rl);
    HostPortAvoids(rl);
    assert LineText(rl) == "GET " + fa + " " + rl.version;
    LineOfTarget(fa, rl.version);
    ParseTargetRoundTrip(rl);
  }


  // ---------------------------------------------------------------------
  // Rejections

  /** Any first token other than "GET" is refused (proxy_parse.c:267). */
  lemma RejectsOtherMethods(m: string, rest: string)
    requires m != [] && AvoidsAll(m, Space) && m != "GET"
    ensures ParseLine(m + " " + rest) == Err(NotGet)
  {
    assert m + " " + rest == m + [' '] + rest;
    StrTokCut(m, ' ', rest, Space);
  }

  /** "GET" with nothing after it but spaces has no target (proxy_parse.c:276). */
  lemma RejectsMissingTarget(pad: string)
    requires forall i :: 0 <= i < |pad| ==> pad[i] == ' '
    ensures ParseLine("GET" + pad) == Err(NoTarget)
  {
    if pad == [] {
      assert "GET" + pad == "GET";
      StrTokWhole("GET", Space);
    } else {
      assert "GET" + pad == "GET" + [' '] + pad[1..];
      StrTokCut("GET", ' ', pad[1..], Space);
      assert Span(pad[1..], Space) == |pad[1..]|;
    }
  }

  /** A target that is the last token of the line is refused: there is no version. */
  lemma RejectsMissingVersion(target: string)
    requires target != [] && AvoidsAll(target, Space)
    ensures ParseLine("GET " + target) == Err(NoVersion)
  {
    assert "GET " + target == "GET" + [' '] + target;
    StrTokCut("GET", ' ', target, Space);
    StrTokWhole(target, Space);
  }

  /** A version that does not start with "HTTP/" is refused (proxy_parse.c:285). */
  lemma RejectsBadVersion(target: string, version: string)
    requires target != [] && AvoidsAll(target, Space)
    requires !HasPrefix(version, "HTTP/")
    ensures ParseLine("GET " + target + " " + version) == Err(BadVersion)
  {
    GetTargetVersion(target, version);
  }

  /** The method and target tokens of "GET <target> <version>". */
  lemma GetTargetVersion(target: string, version: string)
    requires target != [] && AvoidsAll(target, Space)
    ensures StrTok("GET " + target + " " + version, Space) == Token("GET", target + " " + version, true)
    ensures StrTok(target + " " + version, Space) == Token(target, version, true)
  {
    assert "GET " + target + " " + version == "GET" + [' '] + (target + " " + version);
    StrTokCut("GET", ' ', target + " " + version, Space);
    assert target + " " + version == target + [' '] + version;
    StrTokCut(target, ' ', version, Space);
  }

  /** With the method "GET" and a version starting "HTTP/", the line is accepted or refused as its target is. */
  lemma LineOfTarget(target: string, version: string)
    requires target != [] && AvoidsAll(target, Space)
    requires HasPrefix(version, "HTTP/")
    ensures ParseLine("GET " + target + " " + version) ==
      match ParseTarget(target, version)
      case Err(e) => Err(e)
      case Ok(t) => Ok(RequestLine("GET", t.protocol, t.host, t.port, t.path, version))
  {
    GetTargetVersion(target, version);
  }

  /** A target with no '/' after "://" is refused: the host token spans the whole remainder (proxy_parse.c:306). */
  lemma RejectsMissingPath(protocol: string, hostport: string, version: string)
    requires protocol != [] && AvoidsAll(protocol, SchemeDelims)
    requires hostport != [] && AvoidsAll(hostport, Slash) && NoNul(hostport)
    requires HasPrefix(version, "HTTP/")
    ensures ParseTarget(protocol + "://" + hostport, version) == Err(NoPath)
  {
    SchemeAndRemainder(protocol, hostport, version);
    StrTokSkip("//", hostport, Slash);
    StrTokWhole(hostport, Slash);
  }

  /** ParseTarget refuses a path token that starts with '/', read off its strtok_r calls. */
  lemma DoubleSlashFromTokens(fa: string, version: string, protocol: string, after: string, hp: string, tail: string)
    requires |version| >= 5
    requires StrTok(fa, SchemeDelims) == Token(protocol, after, true)
    requires StrTok(after, Slash) == Token(hp, tail, true)
    requires |hp| != |Remainder(fa, StrTok(fa, SchemeDelims), version)|
    requires StrTok(tail, Space).Token? && HasPrefix(StrTok(tail, Space).text, "/")
    ensures ParseTarget(fa, version) == Err(DoubleSlash)
  {
  }

  /** strtok_r(NULL, " ") after the first '/' of a path that starts "//" returns a token that starts with '/'. */
  lemma {:induction false} SlashTail(path: string)
    requires HasPrefix(path, "//") && AvoidsAll(path, Space)
    ensures HasPrefix(path, "/")
    ensures StrTok(path[1..], Space).Token? && HasPrefix(StrTok(path[1..], Space).text, "/")
  {
    assert path[0] == '/' && path[1] == '/';
    assert AvoidsAll(path[1..], Space);
    StrTokWhole(path[1..], Space);
  }

  /** A path that starts with two slashes is refused (proxy_parse.c:317). */
  lemma {:induction false} RejectsDoubleSlash(protocol: string, hostport: string, path: string, version: string)
    requires protocol != [] && AvoidsAll(protocol, SchemeDelims)
    requires hostport != [] && AvoidsAll(hostport, Slash)
    requires HasPrefix(path, "//") && AvoidsAll(path, Space) && NoNul(hostport + path)
    requires HasPrefix(version, "HTTP/")
    ensures ParseTarget(protocol + "://" + (hostport + path), version) == Err(DoubleSlash)
  {
    var fa := protocol + "://" + (hostport + path);
    SlashTail(path);
    SchemeAndRemainder(protocol, hostport + path, version);
    HostToken(hostport, path);
    DoubleSlashFromTokens(fa, version, protocol, "//" + (hostport + path), hostport, path[1..]);
  }

  /** strtok_r(full_addr, "://") on "protocol:/rest": `rem` starts one character into `rest`. */
  lemma {:induction false} SingleSlashRemainder(protocol: string, rest: string, version: string)
    requires protocol != [] && AvoidsAll(protocol, SchemeDelims)
    requires rest != [] && NoNul(rest) && |version| >= 5
    ensures StrTok(protocol + ":/" + rest, SchemeDelims) == Token(protocol, "/" + rest, true)
    ensures |Remainder(protocol + ":/" + rest, StrTok(protocol + ":/" + rest, SchemeDelims), version)| == |rest| - 1
  {
    var after := "/" + rest;
    var fa := protocol + ":/" + rest;
    assert fa == protocol + [':'] + after;
    StrTokCut(protocol, ':', after, SchemeDelims);
    var proto := StrTok(fa, SchemeDelims);
    SpanNone(fa, SchemeDelims);
    var image := CutTarget(fa, proto);
    assert image == protocol + ['\0'] + after;
    var mem := image + ['\0'] + version + ['\0'];
    var k := |protocol| + 3;
    assert mem[k..] == rest[1..] + ['\0'] + (version + ['\0']);
    assert NoNul(rest[1..]);
    CStrAtBefore(mem, k, rest[1..], version + ['\0']);
  }

  /** strtok_r(NULL, "/") on "/host/path": the host, cut at the path's '/'. */
  lemma {:induction false} SingleSlashHost(host: string, path: string)
    requires host != [] && AvoidsAll(host, Slash) && HasPrefix(path, "/")
    ensures StrTok("/" + (host + path), Slash) == Token(host, path[1..], true)
  {
    StrTokSkip("/", host + path, Slash);
    assert path == ['/'] + path[1..];
    ConcatAssoc(host, ['/'], path[1..]);
    StrTokCut(host, '/', path[1..], Slash);
  }

  /**
   * The "://" handed to strtok_r is a set of delimiters, not a separator: a
   * target with a single slash after the scheme is accepted, and the host is
   * found after that slash. The "missing path" check then measures the C
   * string one character into the host, so a path longer than "/" passes it.
   */
  lemma {:induction false} SchemeDelimiterIsASet(protocol: string, host: string, path: string, version: string)
    requires protocol != [] && AvoidsAll(protocol, SchemeDelims)
    requires host != [] && AvoidsAll(host, Colon) && AvoidsAll(host, Slash)
    requires HasPrefix(path, "/") && |path| >= 2 && !HasPrefix(path[1..], "/") && AvoidsAll(path, Space)
    requires NoNul(host + path) && |version| >= 5
    ensures ParseTarget(protocol + ":/" + (host + path), version) == Ok(Target(protocol, host, None, path))
  {
    var fa := protocol + ":/" + (host + path);
    SingleSlashRemainder(protocol, host + path, version);
    SingleSlashHost(host, path);
    PathToken(path);
    HostAndPort(host, None);
    assert host + PortSuffix(None) == host;
    ParseTargetFromTokens(fa, version, Target(protocol, host, None, path), "/" + (host + path), host);
  }

  // ---------------------------------------------------------------------
  // The version pointer

  /**
   * Offset of `full_addr + strlen(full_addr) + 1` (proxy_parse.c:284) in the
   * copy of the request line, whose allocation holds |line| + 1 bytes.
   */
  function VersionOffset(line: string): nat
    requires StrTok(line, Space).Token? && StrTok(StrTok(line, Space).rest, Space).Token?
  {
    RestOffset(line, Space) + RestOffset(StrTok(line, Space).rest, Space)
  }

  /**
   * Where strtok_r leaves its saved pointer, as an offset into its input:
   * just past the delimiter it cut, or one past the end when it cut none.
   */
  function RestOffset(s: string, d: set<char>): nat
    requires StrTok(s, d).Token?
  {
    Span(s, d) + |StrTok(s, d).text| + 1
  }

  /** The saved pointer is the input from that offset on. */
  lemma TokenEnd(s: string, d: set<char>)
    requires StrTok(s, d).Token?
    ensures var t := StrTok(s, d);
      && (t.cut ==> RestOffset(s, d) <= |s| && t.rest == s[RestOffset(s, d)..])
      && (!t.cut ==> RestOffset(s, d) == |s| + 1 && t.rest == [])
  {
  }

  /**
   * A suffix of a suffix of `line`, as an offset into `line`.  A proof step
   * only, stated on the exact terms VersionInsideTheLine holds.
   */
  lemma SuffixOfSuffix(line: string, i: nat, rest: string, j: nat, tail: string, version: string, k: nat)
    requires i <= |line| && rest == line[i..] && j <= |rest| && tail == rest[j..]
    requires version == tail && k == i + j
    ensures k <= |line| && line[k..] == version
  {
  }

  /** As written, a line whose target is its last token puts the version one byte past the copy. */
  lemma VersionPastTheCopy(target: string)
    requires target != [] && AvoidsAll(target, Space)
    ensures StrTok("GET " + target, Space).Token? && StrTok(StrTok("GET " + target, Space).rest, Space).Token?
    ensures VersionOffset("GET " + target) == |"GET " + target| + 1
  {
    var line := "GET " + target;
    assert line == "GET" + [' '] + target;
    StrTokCut("GET", ' ', target, Space);
    StrTokWhole(target, Space);
    TokenEnd(line, Space);
    TokenEnd(target, Space);
  }

  /** Whenever ParseLine accepts a line, the version it reports lies inside the line. */
  lemma VersionInsideTheLine(line: string)
    requires ParseLine(line).Ok?
    ensures StrTok(line, Space).Token? && StrTok(StrTok(line, Space).rest, Space).Token?
    ensures VersionOffset(line) <= |line| && line[VersionOffset(line)..] == ParseLine(line).value.version
  {
    var m := StrTok(line, Space);
    AcceptedTokens(line);
    TokenEnd(line, Space);
    TokenEnd(m.rest, Space);
    SuffixOfSuffix(line, RestOffset(line, Space), m.rest, RestOffset(m.rest, Space),
      StrTok(m.rest, Space).rest, ParseLine(line).value.version, VersionOffset(line));
  }

  /** An accepted line is "GET", a delimiter, the target, a delimiter and the version. */
  lemma AcceptedTokens(line: string)
    requires ParseLine(line).Ok?
    ensures var m := StrTok(line, Space);
      && m.Token? && m.cut && StrTok(m.rest, Space).Token? && StrTok(m.rest, Space).cut
      && ParseLine(line).value.version == StrTok(m.rest, Space).rest
  {
    var m := StrTok(line, Space);
    StrTokEmpty(Space);
    assert m.cut;
  }
}
