/**
 * The request-side work of the proxy's worker (proxy_server_with_cache.c):
 * the HTTP version check, and the rewrite handle_request makes before it
 * contacts the origin server — the origin-form request line in a fresh
 * MAX_BYTES buffer, "Connection: close", a "Host" header when the client sent
 * none, the header block after the line, and the server port.
 */
module ProxyServer {
  import opened Wrappers
  import opened CStrings
  import opened HeaderSlots
  import opened ProxyParse

  /** MAX_BYTES: the size of the buffer handle_request sends from. */
  const MaxBytes: nat := 4096

  /** The port used when the request target names none. */
  const DefaultPort: int := 80

  // ---------------------------------------------------------------------
  // checkHTTPversion

  /** The character strncmp reads at offset `i` of a C string: NUL past its end. */
  function CharAt(s: string, i: nat): char {
    if i < |s| then s[i] else '\0'
  }

  /**
   * strncmp(a, b, n) on the C strings `a` and `b`: compare at most `n`
   * characters, stopping after the first difference or a common NUL.
   */
  function StrNCmp(a: string, b: string, n: nat): int
    decreases n
  {
    if n == 0 then 0
    else if CharAt(a, 0) != CharAt(b, 0) then CharAt(a, 0) as int - CharAt(b, 0) as int
    else if CharAt(a, 0) == '\0' then 0
    else StrNCmp(a[1..], b[1..], n - 1)
  }

  /** checkHTTPversion: 1 for "HTTP/1.1" and "HTTP/1.0", -1 for anything else. */
  function CheckHTTPVersion(msg: string): (r: int)
    ensures r == 1 || r == -1
  {
    if StrNCmp(msg, "HTTP/1.1", 8) == 0 || StrNCmp(msg, "HTTP/1.0", 8) == 0 then 1 else -1
  }

  /** strncmp over the whole of a pattern without NUL is zero exactly when the string starts with it. */
  lemma {:induction false} StrNCmpPrefix(s: string, p: string)
    requires NoNul(p)
    ensures StrNCmp(s, p, |p|) == 0 <==> HasPrefix(s, p)
    decreases |p|
  {
    if p != [] {
      if s == [] {
        assert CharAt(s, 0) == '\0' != p[0];
      } else if s[0] == p[0] {
        assert NoNul(p[1..]) by { assert forall i :: 0 <= i < |p[1..]| ==> p[1..][i] == p[i + 1]; }
        StrNCmpPrefix(s[1..], p[1..]);
        if |p| <= |s| {
          assert s[..|p|] == [s[0]] + s[1..][..|p| - 1];
          assert p == [p[0]] + p[1..];
        }
      }
    }
  }

  /** The version check accepts exactly the strings that begin with "HTTP/1.1" or "HTTP/1.0". */
  lemma CheckHTTPVersionSpec(msg: string)
    ensures CheckHTTPVersion(msg) == 1 <==> HasPrefix(msg, "HTTP/1.1") || HasPrefix(msg, "HTTP/1.0")
  {
    StrNCmpPrefix(msg, "HTTP/1.1");
    StrNCmpPrefix(msg, "HTTP/1.0");
  }

  /** The parser accepts any "HTTP/" version, but the worker then refuses "HTTP/2.0". */
  lemma CheckHTTPVersionRefusesTwo()
    ensures CheckHTTPVersion("HTTP/2.0") == -1
  {
    CheckHTTPVersionSpec("HTTP/2.0");
    assert "HTTP/2.0"[..8] != "HTTP/1.1" by { assert "HTTP/2.0"[5] != "HTTP/1.1"[5]; }
    assert "HTTP/2.0"[..8] != "HTTP/1.0" by { assert "HTTP/2.0"[5] != "HTTP/1.0"[5]; }
  }

  /** Only the first eight characters are compared, so "HTTP/1.10" passes as well as "HTTP/1.1". */
  lemma CheckHTTPVersionComparesEight()
    ensures CheckHTTPVersion("HTTP/1.1") == 1
    ensures CheckHTTPVersion("HTTP/1.10") == 1
  {
    CheckHTTPVersionSpec("HTTP/1.1");
    CheckHTTPVersionSpec("HTTP/1.10");
    assert "HTTP/1.10"[..8] == "HTTP/1.1";
  }

  // ---------------------------------------------------------------------
  // The rewrite in handle_request

  /** The origin-form request line `snprintf(buf, MAX_BYTES, "GET %s %s\r\n", path, version)` formats. */
  function OriginLine(path: string, version: string): string {
    "GET " + CStrAt(path, 0) + " " + CStrAt(version, 0) + "\r\n"
  }

  /** The formatted line holds no NUL: %s copies a C string up to its end. */
  lemma OriginLineNoNul(path: string, version: string)
    ensures NoNul(OriginLine(path, version))
  {
    var p, v := CStrAt(path, 0), CStrAt(version, 0);
    var l := OriginLine(path, version);
    forall i | 0 <= i < |l|
      ensures l[i] != '\0'
    {
      if 4 <= i < 4 + |p| {
        assert l[i] == p[i - 4];
      } else if 5 + |p| <= i < 5 + |p| + |v| {
        assert l[i] == v[i - 5 - |p|];
      }
    }
  }

  /** snprintf into MAX_BYTES bytes keeps at most MAX_BYTES - 1 characters before its NUL. */
  function Truncated(s: string): (r: string)
    ensures |r| < MaxBytes && HasPrefix(s, r)
    ensures |s| < MaxBytes ==> r == s
    ensures |s| >= MaxBytes ==> |r| == MaxBytes - 1
  {
    if |s| < MaxBytes then s else s[..MaxBytes - 1]
  }

  /** The header table after the two ParsedHeader_set calls of handle_request. */
  function RewriteHeaders(s: seq<Slot>, host: string): seq<Slot> {
    var c := SetSlot(s, "Connection", "close");
    if FirstLive(c, "Host").None? then SetSlot(c, "Host", host) else c
  }

  /** A live header `key` is found, and its value is `value`. */
  predicate HasHeader(s: seq<Slot>, key: string, value: string) {
    FirstLive(s, key).Some? && s[FirstLive(s, key).value] == Live(key, value)
  }

  /** The buffer after the request line and the header block are written over the malloc'd bytes `mem`. */
  function RewriteBuffer(mem: string, line: string, block: string): (r: string)
    requires |mem| == MaxBytes && |Truncated(line)| + |block| <= MaxBytes
    ensures |r| == MaxBytes
  {
    Overwrite(Overwrite(mem, 0, Truncated(line) + "\0"), |Truncated(line)|, block)
  }

  /** After the rewrite the request asks the server to close the connection. */
  lemma RewriteClosesConnection(s: seq<Slot>, host: string)
    requires UniqueLive(s)
    ensures UniqueLive(RewriteHeaders(s, host))
    ensures HasHeader(RewriteHeaders(s, host), "Connection", "close")
  {
    var c := SetSlot(s, "Connection", "close");
    SetThenGet(s, "Connection", "close");
    if FirstLive(c, "Host").None? {
      SetThenGet(c, "Host", host);
      SetKeepsOtherKey(c, "Host", host, "Connection");
    }
  }

  /**
   * After the rewrite there is a Host header: the request's own host when
   * the client sent none, otherwise the client's Host header, untouched.
   */
  lemma RewriteHost(s: seq<Slot>, host: string)
    requires UniqueLive(s)
    ensures FirstLive(s, "Host").None? ==> HasHeader(RewriteHeaders(s, host), "Host", host)
    ensures FirstLive(s, "Host").Some? ==>
      && FirstLive(RewriteHeaders(s, host), "Host") == FirstLive(s, "Host")
      && RewriteHeaders(s, host)[FirstLive(s, "Host").value] == s[FirstLive(s, "Host").value]
  {
    var c := SetSlot(s, "Connection", "close");
    SetKeepsOtherKey(s, "Connection", "close", "Host");
    if FirstLive(c, "Host").None? {
      SetThenGet(s, "Connection", "close");
      SetThenGet(c, "Host", host);
    }
  }

  /** The C string snprintf leaves is the truncated line itself. */
  lemma SnPrintfLength(mem: string, line: string)
    requires |mem| == MaxBytes && NoNul(line)
    ensures NoNul(Truncated(line))
    ensures CStrAt(Overwrite(mem, 0, Truncated(line) + "\0"), 0) == Truncated(line)
  {
    var t := Truncated(line);
    assert forall i :: 0 <= i < |t| ==> t[i] == line[i];
    var m := Overwrite(mem, 0, t + "\0");
    OverwriteSpec(mem, 0, t + "\0");
    assert m[..|t|] == t by { assert m[0..|t| + 1] == t + "\0"; }
    assert m[|t|] == '\0' by { assert m[0..|t| + 1][|t|] == '\0'; }
    CStrAtTerminated(m, t);
  }

  /** With the header block written after the line, the first |line| + |block| bytes are the request to send. */
  lemma RequestBytesSent(mem: string, line: string, block: string)
    requires |mem| == MaxBytes && |Truncated(line)| + |block| <= MaxBytes
    ensures RewriteBuffer(mem, line, block)[..|Truncated(line)| + |block|] == Truncated(line) + block
  {
    var t := Truncated(line);
    var m := Overwrite(mem, 0, t + "\0");
    OverwriteSpec(mem, 0, t + "\0");
    OverwriteSpec(m, |t|, block);
    var r := RewriteBuffer(mem, line, block);
    assert r[..|t|] == m[..|t|];
    assert m[..|t|] == t by { assert m[0..|t| + 1] == t + "\0"; }
    assert r[..|t| + |block|] == r[..|t|] + r[|t|..|t| + |block|];
  }

  /**
   * The request line, "Connection: close", a Host header when absent, the
   * header block after the line, and the server port: handle_request
   * before connectRemoteServer.  `mem` is the content of the malloc'd
   * buffer.  `sendLen` is the number of bytes the request occupies.
   */
  method HandleRequestHeaders(req: ParsedRequest, mem: string) returns (out: array<char>, len: nat, sendLen: nat, serverPort: int)
    requires req.Valid() && req.buf.Some? && |mem| == MaxBytes
    modifies req, req.headers
    ensures fresh(out) && out.Length == MaxBytes
    ensures req.Valid() && req.buf == old(req.buf) && req.LineFields() == old(req.LineFields())
    ensures req.Slots() == RewriteHeaders(old(req.Slots()), old(req.host))
    ensures len == |Truncated(OriginLine(old(req.path), old(req.version)))|
    ensures req.HeadersLen() <= MaxBytes - len ==>
      && out[..] == RewriteBuffer(mem, OriginLine(old(req.path), old(req.version)), HeaderBlock(req.Slots()))
      && sendLen == len + req.HeadersLen()
    ensures req.HeadersLen() > MaxBytes - len ==>
      && out[..] == Overwrite(mem, 0, Truncated(OriginLine(old(req.path), old(req.version))) + "\0")
      && sendLen == len
    ensures serverPort == if old(req.port).None? then DefaultPort else Atoi(old(req.port).value)
  {
    var line := OriginLine(req.path, req.version);
    serverPort := if req.port.Some? then Atoi(req.port.value) else DefaultPort;
    OriginLineNoNul(req.path, req.version);
    out := SnPrintf(mem, line);
    len := |CStrAt(out[..], 0)|;
    ghost var written := out[..];
    RewriteHeaderTable(req);
    var unparsed := req.UnparseHeaders(out, len, MaxBytes - len);
    if unparsed == 0 {
      sendLen := len + req.HeadersLen();
      SameBuffer(out[..], written, mem, line, len, HeaderBlock(req.Slots()));
    } else {
      sendLen := len;
    }
  }

  /**
   * The header edits of handle_request: ParsedHeader_set of
   * "Connection: close", then of "Host" when ParsedHeader_get finds none.
   */
  method RewriteHeaderTable(req: ParsedRequest)
    requires req.Valid()
    modifies req, req.headers
    ensures req.Valid() && req.buf == old(req.buf) && req.LineFields() == old(req.LineFields())
    ensures req.Slots() == RewriteHeaders(old(req.Slots()), old(req.host))
  {
    ghost var s0 := req.Slots();
    ghost var host := req.host;
    var ignored := req.Set("Connection", "close");
    var hostHeader := req.Get("Host");
    if hostHeader.None? {
      ignored := req.Set("Host", req.host);
    }
    SameRewrite(req.Slots(), s0, host, hostHeader.None?);
  }

  /**
   * The table left by the two sets is RewriteHeaders of the table before
   * them.  A proof step only, stated on the facts RewriteHeaderTable holds,
   * so that the method need not unfold RewriteHeaders itself.
   */
  lemma SameRewrite(s: seq<Slot>, s0: seq<Slot>, host: string, added: bool)
    requires added ==> s == SetSlot(SetSlot(s0, "Connection", "close"), "Host", host)
    requires !added ==> s == SetSlot(s0, "Connection", "close")
    requires added <==> FirstLive(SetSlot(s0, "Connection", "close"), "Host").None?
    ensures s == RewriteHeaders(s0, host)
  {
  }

  /**
   * The header block written at the line's end over snprintf's output is
   * RewriteBuffer.  A proof step only, for HandleRequestHeaders.
   */
  lemma SameBuffer(d: string, written: string, mem: string, line: string, len: nat, block: string)
    requires |mem| == MaxBytes && written == Overwrite(mem, 0, Truncated(line) + "\0")
    requires len == |Truncated(line)| && len + |block| <= MaxBytes && d == Overwrite(written, len, block)
    ensures d == RewriteBuffer(mem, line, block)
  {
  }

  /**
   * snprintf(buf, MAX_BYTES, "GET %s %s\r\n", path, version) into a fresh
   * buffer holding `mem`: the truncated line, then a NUL.
   */
  method SnPrintf(mem: string, line: string) returns (out: array<char>)
    requires |mem| == MaxBytes && NoNul(line)
    ensures fresh(out) && out.Length == MaxBytes
    ensures out[..] == Overwrite(mem, 0, Truncated(line) + "\0")
    ensures CStrAt(out[..], 0) == Truncated(line)
  {
    out := new char[MaxBytes](i requires 0 <= i < MaxBytes => mem[i]);
    assert out[..] == mem;
    var t := if |line| < MaxBytes then line else line[..MaxBytes - 1];
    MemCpy(out, 0, t + "\0");
    SnPrintfLength(mem, line);
  }

  // ---------------------------------------------------------------------
  // send(remoteSocketID, buf, strlen(buf), 0)

  /** The length handle_request sends: strlen(buf). */
  function SendLengthAsWritten(buf: string): nat {
    |CStrAt(buf, 0)|
  }

  /**
   * ParsedHeader_printHeaders writes no NUL, so once the header block is
   * written over the NUL snprintf left, strlen(buf) runs on through the
   * uninitialised rest of the malloc'd buffer: with no NUL there it reaches
   * the end of the buffer (and C would read past it).
   */
  lemma StrLenRunsPastHeaders(mem: string, line: string, block: string)
    requires |mem| == MaxBytes && NoNul(mem) && NoNul(line) && NoNul(block)
    requires block != [] && |Truncated(line)| + |block| < MaxBytes
    ensures SendLengthAsWritten(RewriteBuffer(mem, line, block)) == MaxBytes
    ensures SendLengthAsWritten(RewriteBuffer(mem, line, block)) > |Truncated(line)| + |block|
  {
    var t := Truncated(line);
    assert forall i :: 0 <= i < |t| ==> t[i] == line[i];
    var m := Overwrite(mem, 0, t + "\0");
    var r := RewriteBuffer(mem, line, block);
    OverwriteSpec(mem, 0, t + "\0");
    OverwriteSpec(m, |t|, block);
    forall i | 0 <= i < |r|
      ensures r[i] != '\0'
    {
      if i < |t| {
        assert r[i] == m[i] == (t + "\0")[i];
      } else if i < |t| + |block| {
        assert r[i] == r[|t|..|t| + |block|][i - |t|];
      } else {
        assert r[i] == m[i] == mem[i];
      }
    }
    CStrAtWhole(r);
  }
}
