/**
 * `struct ParsedRequest` of proxy_parse.c as an object: the header table
 * (a growable array of slots with its `headersused` and `headerslen`
 * counters), the copied request line `buf`, and the request-line fields.
 * Every method is proved against the value-level functions of HeaderSlots,
 * RequestLines and Requests.
 */
module ProxyParse {
  import opened Wrappers
  import opened CStrings
  import opened HeaderSlots
  import opened RequestLines
  import opened Requests

  /** DEFAULT_NHDRS: the number of slots a new request starts with. */
  const DefaultHeaderSlots: nat := 8

  class ParsedRequest {
    /** The slot array `headers`; only `headers[0 .. headersUsed)` is meaningful. */
    var headers: array<Slot>
    /** `headersused`: the slots handed out so far, tombstones included. */
    var headersUsed: nat
    /** `headerslen`: the number of slots allocated. */
    var headersAllocated: nat
    /** `buf`: the copy of the request line, NULL until a request line was accepted. */
    var buf: Option<string>
    // The request-line fields; they are read only while `buf` is set.
    var httpMethod: string
    var protocol: string
    var host: string
    var port: Option<string>
    var path: string
    var version: string

    /** The slots in use, as a value. */
    function Slots(): seq<Slot>
      reads this, headers
      requires headersUsed <= headers.Length
    {
      headers[..headersUsed]
    }

    /** The request-line fields, as a value. */
    function LineFields(): RequestLine
      reads this
    {
      RequestLine(httpMethod, protocol, host, port, path, version)
    }

    /**
     * The array is as long as `headerslen` says, one slot beyond the used
     * ones is always free, and no key is live twice.
     */
    predicate Valid()
      reads this, headers
    {
      && headers.Length == headersAllocated
      && headersUsed < headersAllocated
      && UniqueLive(Slots())
    }

    /**
     * ParsedRequest_create with ParsedHeader_create: eight free slots, no
     * request line.  `port` is left as it was found in memory.
     */
    constructor()
      ensures Valid() && fresh(headers)
      ensures Slots() == [] && headersAllocated == DefaultHeaderSlots && buf == None
    {
      headers := new Slot[DefaultHeaderSlots](_ => Tombstone);
      headersAllocated := DefaultHeaderSlots;
      headersUsed := 0;
      buf := None;
      httpMethod, protocol, host, path, version := "", "", "", "", "";
      port := *;
    }

    /** ParsedHeader_get: the first live slot with the key, scanning from slot 0. */
    method Get(key: string) returns (r: Option<nat>)
      requires Valid()
      ensures r == FirstLive(Slots(), key)
    {
      var i := 0;
      while i < headersUsed
        invariant 0 <= i <= headersUsed
        invariant forall j :: 0 <= j < i ==> !HasKey(Slots()[j], key)
      {
        if headers[i].Live? && headers[i].key == key {
          assert HasKey(Slots()[i], key);
          return Some(i);
        }
        i := i + 1;
      }
      return None;
    }

    /**
     * ParsedHeader_remove: -1 when no live slot has the key; otherwise the
     * first such slot becomes a tombstone.  The counters do not change.
     */
    method Remove(key: string) returns (r: int)
      requires Valid()
      modifies headers
      ensures Valid()
      ensures r == (if FirstLive(old(Slots()), key).None? then -1 else 0)
      ensures Slots() == RemoveSlot(old(Slots()), key)
    {
      RemoveThenAbsent(Slots(), key);
      var found := Get(key);
      match found
      case None =>
        r := -1;
      case Some(i) =>
        headers[i] := Tombstone;
        assert Slots() == old(Slots())[i := Tombstone];
        r := 0;
    }

    /**
     * ParsedHeader_set: remove the key, grow the array to twice its size when
     * the slot after the new one would not exist, and fill the next slot.
     */
    method Set(key: string, value: string) returns (r: int)
      requires Valid()
      modifies this, headers
      ensures Valid() && r == 0
      ensures Slots() == SetSlot(old(Slots()), key, value)
      ensures FirstLive(Slots(), key) == Some(headersUsed - 1)
      ensures headersUsed == old(headersUsed) + 1
      ensures headersAllocated ==
        if old(headersAllocated) <= old(headersUsed) + 1 then 2 * old(headersAllocated) else old(headersAllocated)
      ensures headers == old(headers) || fresh(headers)
      ensures buf == old(buf) && LineFields() == old(LineFields())
    {
      SetThenGet(Slots(), key, value);
      var removed := Remove(key);
      if headersAllocated <= headersUsed + 1 {
        Grow();
      }
      Append(Live(key, value));
      r := 0;
    }

    /** The realloc in ParsedHeader_set: twice the slots, the used ones copied. */
    method Grow()
      requires Valid()
      modifies this
      ensures Valid() && fresh(headers) && Slots() == old(Slots())
      ensures headersAllocated == 2 * old(headersAllocated) && headersUsed == old(headersUsed)
      ensures buf == old(buf) && LineFields() == old(LineFields())
    {
      var prev := headers;
      headersAllocated := 2 * headersAllocated;
      headers := new Slot[headersAllocated](i reads prev => if 0 <= i < prev.Length then prev[i] else Tombstone);
      assert headers[..headersUsed] == prev[..headersUsed];
    }

    /** The end of ParsedHeader_set: fill the next free slot and count it. */
    method Append(slot: Slot)
      requires headersUsed + 1 < headersAllocated == headers.Length
      requires UniqueLive(Slots() + [slot])
      modifies this, headers
      ensures Valid() && headers == old(headers)
      ensures Slots() == old(Slots()) + [slot]
      ensures headersUsed == old(headersUsed) + 1 && headersAllocated == old(headersAllocated)
      ensures buf == old(buf) && LineFields() == old(LineFields())
    {
      ghost var before := Slots();
      headers[headersUsed] := slot;
      headersUsed := headersUsed + 1;
      assert Slots() == before + [slot];
    }

    /**
     * ParsedHeader_parse on the text from the start of a header line to the
     * end of the request: -1 when there is no ':' after the line start;
     * otherwise the key and value that SplitHeader reads are set.
     */
    method ParseHeader(line: string) returns (r: int)
      requires Valid()
      modifies this, headers
      ensures Valid() && (headers == old(headers) || fresh(headers))
      ensures buf == old(buf) && LineFields() == old(LineFields())
      ensures SplitHeader(line).None? ==> r == -1 && Slots() == old(Slots())
      ensures SplitHeader(line).Some? ==>
        r == 0 && Slots() == SetSlot(old(Slots()), SplitHeader(line).value.0, SplitHeader(line).value.1)
    {
      match SplitHeader(line)
      case None =>
        r := -1;
      case Some(f) =>
        r := Set(f.0, f.1);
    }

    /** ParsedHeader_headersLen: 0 without a request line, else every live line and the final CRLF. */
    function HeadersLen(): (n: nat)
      reads this, headers
      requires Valid()
      ensures buf.None? ==> n == 0
      ensures buf.Some? ==> n == |HeaderBlock(Slots())|
    {
      if buf.None? then 0 else SlotsLen(Slots()) + 2
    }

    /** ParsedRequest_requestLineLen: 0 without a request line, else the length of the printed line. */
    function RequestLineLen(): (n: nat)
      reads this
      ensures buf.None? ==> n == 0
      ensures buf.Some? ==> n == |FormatRequestLine(LineFields())|
    {
      if buf.None? then 0 else RequestLineLength(LineFields())
    }

    /** ParsedRequest_totalLen: what ParsedRequest_unparse writes. */
    function TotalLen(): (n: nat)
      reads this, headers
      requires Valid()
      ensures buf.None? ==> n == 0
      ensures buf.Some? ==> n == |FormatRequestLine(LineFields()) + HeaderBlock(Slots())|
    {
      if buf.None? then 0 else RequestLineLen() + HeadersLen()
    }

    /**
     * ParsedHeader_printHeaders into `dst[at .. at + len)`: -1 before any
     * write when `len` is short; otherwise "key: value\r\n" for every live
     * slot in slot order and then "\r\n", exactly HeadersLen() bytes.
     */
    method PrintHeaders(dst: array<char>, at: nat, len: nat) returns (r: int)
      requires Valid() && buf.Some?
      requires at + len <= dst.Length
      modifies dst
      ensures len < HeadersLen() ==> r == -1 && dst[..] == old(dst[..])
      ensures len >= HeadersLen() ==> r == 0 && dst[..] == Overwrite(old(dst[..]), at, HeaderBlock(Slots()))
    {
      if len < HeadersLen() {
        return -1;
      }
      ghost var slots := Slots();
      ghost var mem := dst[..];
      StartPrinted(mem, at, slots);
      var current := at;
      var i := 0;
      while i < headersUsed
        invariant i <= headersUsed == |slots|
        invariant Printed(dst[..], mem, at, slots, i, current)
      {
        current := PrintSlot(dst, mem, at, slots, i, current, headers[i]);
        i := i + 1;
      }
      FinishHeaders(dst, mem, at, slots, current);
      r := 0;
    }

    /** The final memcpy of "\r\n" after the lines of every slot. */
    static method FinishHeaders(dst: array<char>, ghost mem: string, ghost at: nat, ghost slots: seq<Slot>, current: nat)
      requires Printed(dst[..], mem, at, slots, |slots|, current)
      modifies dst
      ensures dst[..] == Overwrite(mem, at, HeaderBlock(slots))
    {
      assert slots[..|slots|] == slots;
      MemCpy(dst, current, "\r\n");
      OverwriteAppend(mem, at, Lines(slots), "\r\n");
    }

    /**
     * The loop invariant of ParsedHeader_printHeaders: the lines of the first
     * `i` slots are written from `at` on over the memory `mem`, `current` is
     * just after them, and the whole block still fits.
     */
    static ghost predicate Printed(d: string, mem: string, at: nat, slots: seq<Slot>, i: nat, current: nat) {
      && i <= |slots|
      && at + |Lines(slots)| + 2 <= |mem| == |d|
      && |Lines(slots[..i])| <= |Lines(slots)|
      && current == at + |Lines(slots[..i])|
      && d == Overwrite(mem, at, Lines(slots[..i]))
    }

    /** Before the loop nothing is written. */
    static lemma StartPrinted(mem: string, at: nat, slots: seq<Slot>)
      requires at + |HeaderBlock(slots)| <= |mem|
      ensures Printed(mem, mem, at, slots, 0, at)
    {
      assert slots[..0] == [];
      OverwriteNothing(mem, at);
    }

    /** One turn of the loop of ParsedHeader_printHeaders: slot `i` is printed if it is live. */
    static method PrintSlot(dst: array<char>, ghost mem: string, ghost at: nat, ghost slots: seq<Slot>, i: nat,
                            current: nat, slot: Slot) returns (next: nat)
      requires i < |slots| && slot == slots[i]
      requires Printed(dst[..], mem, at, slots, i, current)
      modifies dst
      ensures Printed(dst[..], mem, at, slots, i + 1, next)
    {
      LinesPrefix(slots, i);
      LinesPrefixShorter(slots, i + 1);
      next := current;
      if slot.Live? {
        PrintLine(dst, mem, at, Lines(slots[..i]), current, slot);
        next := current + |slot.key| + |slot.value| + 4;
      }
    }

    /** The four memcpy calls of one live slot, at `current`, just after what was written from `at` on. */
    static method PrintLine(dst: array<char>, ghost mem: string, ghost at: nat, ghost written: string, current: nat, slot: Slot)
      requires slot.Live? && |mem| == dst.Length
      requires current == at + |written| && current + |Line(slot)| <= dst.Length
      requires dst[..] == Overwrite(mem, at, written)
      modifies dst
      ensures dst[..] == Overwrite(mem, at, written + Line(slot))
    {
      var next := Emit(dst, mem, at, written, current, slot.key);
      next := Emit(dst, mem, at, written + slot.key, next, ": ");
      next := Emit(dst, mem, at, written + slot.key + ": ", next, slot.value);
      next := Emit(dst, mem, at, written + slot.key + ": " + slot.value, next, "\r\n");
      assert written + slot.key + ": " + slot.value + "\r\n" == written + Line(slot);
    }

    /** memcpy(current, src, |src|) followed by `current += |src|`, seen as appending to what was written. */
    static method Emit(dst: array<char>, ghost mem: string, ghost at: nat, ghost written: string, current: nat, src: string)
      returns (next: nat)
      requires |mem| == dst.Length
      requires current == at + |written| && current + |src| <= dst.Length
      requires dst[..] == Overwrite(mem, at, written)
      modifies dst
      ensures next == current + |src|
      ensures dst[..] == Overwrite(mem, at, written + src)
    {
      MemCpy(dst, current, src);
      OverwriteAppend(mem, at, written, src);
      next := current + |src|;
    }

    /**
     * ParsedRequest_printRequestLine: -1 before any write when `buflen` is
     * short; otherwise the request line and its CRLF are written at the start
     * of `dst` and `tmp` is their length.
     */
    method PrintRequestLine(dst: array<char>, buflen: nat) returns (r: int, tmp: nat)
      requires buf.Some? && buflen <= dst.Length
      modifies dst
      ensures buflen < RequestLineLen() ==> r == -1 && dst[..] == old(dst[..])
      ensures buflen >= RequestLineLen() ==>
        && r == 0 && tmp == RequestLineLen()
        && dst[..] == Overwrite(old(dst[..]), 0, FormatRequestLine(LineFields()))
    {
      if buflen < RequestLineLen() {
        return -1, 0;
      }
      tmp := WriteRequestLine(dst, LineFields());
      r := 0;
    }

    /** The memcpy calls of ParsedRequest_printRequestLine, field by field, from the start of `dst`. */
    static method WriteRequestLine(dst: array<char>, rl: RequestLine) returns (n: nat)
      requires |FormatRequestLine(rl)| <= dst.Length
      modifies dst
      ensures n == |FormatRequestLine(rl)|
      ensures dst[..] == Overwrite(old(dst[..]), 0, FormatRequestLine(rl))
    {
      ghost var mem := dst[..];
      OverwriteNothing(mem, 0);
      var current := WriteScheme(dst, mem, "", 0, rl.httpMethod, rl.protocol);
      current := WriteAuthority(dst, mem, "" + rl.httpMethod + " " + rl.protocol + "://", current, rl.host, rl.port);
      current := WriteTail(dst, mem, "" + rl.httpMethod + " " + rl.protocol + "://" + rl.host + PortSuffix(rl.port),
        current, rl.path, rl.version);
      FormatRequestLinePieces(rl);
      OverwriteSame(dst[..], mem, 0, "" + rl.httpMethod + " " + rl.protocol + "://" + rl.host + PortSuffix(rl.port)
        + rl.path + " " + rl.version + "\r\n", FormatRequestLine(rl));
      n := current;
    }

    /** The method, a space, the protocol and "://". */
    static method WriteScheme(dst: array<char>, ghost mem: string, ghost written: string, current: nat,
                              httpMethod: string, protocol: string) returns (next: nat)
      requires |mem| == dst.Length && current == |written|
      requires current + |httpMethod| + 1 + |protocol| + 3 <= dst.Length
      requires dst[..] == Overwrite(mem, 0, written)
      modifies dst
      ensures next == current + |httpMethod| + 1 + |protocol| + 3
      ensures dst[..] == Overwrite(mem, 0, written + httpMethod + " " + protocol + "://")
    {
      next := Emit(dst, mem, 0, written, current, httpMethod);
      next := Emit(dst, mem, 0, written + httpMethod, next, " ");
      next := Emit(dst, mem, 0, written + httpMethod + " ", next, protocol);
      next := Emit(dst, mem, 0, written + httpMethod + " " + protocol, next, "://");
    }

    /** The host and, when the port is set, ':' and the port. */
    static method WriteAuthority(dst: array<char>, ghost mem: string, ghost written: string, current: nat,
                                 host: string, port: Option<string>) returns (next: nat)
      requires |mem| == dst.Length && current == |written|
      requires current + |host| + |PortSuffix(port)| <= dst.Length
      requires dst[..] == Overwrite(mem, 0, written)
      modifies dst
      ensures next == current + |host| + |PortSuffix(port)|
      ensures dst[..] == Overwrite(mem, 0, written + host + PortSuffix(port))
    {
      next := Emit(dst, mem, 0, written, current, host);
      if port.Some? {
        next := Emit(dst, mem, 0, written + host, next, ":");
        next := Emit(dst, mem, 0, written + host + ":", next, port.value);
        assert written + host + ":" + port.value == written + host + PortSuffix(port);
      } else {
        assert written + host == written + host + PortSuffix(port);
      }
    }

    /** The path, a space, the version and the CRLF. */
    static method WriteTail(dst: array<char>, ghost mem: string, ghost written: string, current: nat,
                            path: string, version: string) returns (next: nat)
      requires |mem| == dst.Length && current == |written|
      requires current + |path| + 1 + |version| + 2 <= dst.Length
      requires dst[..] == Overwrite(mem, 0, written)
      modifies dst
      ensures next == current + |path| + 1 + |version| + 2
      ensures dst[..] == Overwrite(mem, 0, written + path + " " + version + "\r\n")
    {
      next := Emit(dst, mem, 0, written, current, path);
      next := Emit(dst, mem, 0, written + path, next, " ");
      next := Emit(dst, mem, 0, written + path + " ", next, version);
      next := Emit(dst, mem, 0, written + path + " " + version, next, "\r\n");
    }

    /**
     * ParsedRequest_unparse: the request line and then the header block.
     * When only the request line fits, it stays written and -1 is returned.
     */
    method Unparse(dst: array<char>, buflen: nat) returns (r: int)
      requires Valid() && buflen <= dst.Length
      modifies dst
      ensures buf.None? ==> r == -1 && dst[..] == old(dst[..])
      ensures buf.Some? && buflen < RequestLineLen() ==> r == -1 && dst[..] == old(dst[..])
      ensures buf.Some? && RequestLineLen() <= buflen < TotalLen() ==>
        r == -1 && dst[..] == Overwrite(old(dst[..]), 0, FormatRequestLine(LineFields()))
      ensures buf.Some? && TotalLen() <= buflen ==>
        r == 0 && dst[..] == Overwrite(old(dst[..]), 0, FormatRequestLine(LineFields()) + HeaderBlock(Slots()))
    {
      if buf.None? {
        return -1;
      }
      var printed, tmp := PrintRequestLine(dst, buflen);
      if printed < 0 {
        return -1;
      }
      ghost var mid := dst[..];
      printed := PrintHeaders(dst, tmp, buflen - tmp);
      if printed < 0 {
        return -1;
      }
      OverwriteAppend(old(dst[..]), 0, FormatRequestLine(LineFields()), HeaderBlock(Slots()));
      return 0;
    }

    /**
     * ParsedRequest_unparse_headers into the `buflen` bytes at offset `at` of
     * `dst`: -1 without a request line, else ParsedHeader_printHeaders.
     */
    method UnparseHeaders(dst: array<char>, at: nat, buflen: nat) returns (r: int)
      requires Valid() && at + buflen <= dst.Length
      modifies dst
      ensures buf.None? || buflen < HeadersLen() ==> r == -1 && dst[..] == old(dst[..])
      ensures buf.Some? && HeadersLen() <= buflen ==>
        r == 0 && dst[..] == Overwrite(old(dst[..]), at, HeaderBlock(Slots()))
    {
      if buf.None? {
        return -1;
      }
      r := PrintHeaders(dst, at, buflen);
    }

    /**
     * ParsedRequest_parse: `raw` is the caller's `buflen` bytes.  -1 when a
     * request was already parsed into the object or ParseRequest refuses the
     * text, with no header set; otherwise the request line is kept, every
     * header line read is set in order, and the result is -1 exactly when a
     * header line had no colon.
     */
    method Parse(raw: string) returns (r: int)
      requires Valid()
      modifies this, headers
      ensures Valid() && (headers == old(headers) || fresh(headers))
      ensures old(buf).Some? ==>
        && r == -1 && buf == old(buf) && LineFields() == old(LineFields())
        && headers == old(headers) && Slots() == old(Slots())
        && headersUsed == old(headersUsed) && headersAllocated == old(headersAllocated)
      ensures old(buf).None? && ParseRequest(raw).Err? ==>
        && r == -1 && buf == None && LineFields() == old(LineFields())
        && headers == old(headers) && Slots() == old(Slots())
        && headersUsed == old(headersUsed) && headersAllocated == old(headersAllocated)
      ensures old(buf).None? && ParseRequest(raw).Ok? ==>
        && buf == Some(ParseRequest(raw).value.line)
        && LineFields() == ParseRequest(raw).value.requestLine
        && Slots() == SetAll(old(Slots()), ParseRequest(raw).value.headers.fields)
        && (r == 0 || r == -1)
        && (r == 0 <==> ParseRequest(raw).value.headers.complete)
    {
      if buf.Some? {
        return -1;
      }
      var read, rest := ReadRequestLine(raw);
      if read.Err? {
        return -1;
      }
      KeepRequestLine(read.value.0, read.value.1);
      r := ParseHeaderLines(rest);
    }

    /**
     * The checks ParsedRequest_parse makes before its header loop: the length
     * bounds, the empty line that ends the headers, and the request line.
     * On success, the request line's text and fields, and the text after its
     * CRLF, where the header lines start.
     */
    static method ReadRequestLine(raw: string) returns (read: Result<(string, RequestLine), RequestError>, rest: string)
      ensures read.Err? <==> ParseRequest(raw).Err?
      ensures read.Ok? ==> ParseRequest(raw) == Ok(Request(read.value.0, read.value.1, HeaderFields(rest)))
    {
      rest := "";
      if |raw| < MinReqLen || |raw| > MaxReqLen {
        return Err(BadLength), rest;
      }
      var t := RequestText(raw);
      if Find(t, "\r\n\r\n").None? {
        return Err(NoHeaderEnd), rest;
      }
      var i := LineEnd(t);
      var parsed := ParseLine(t[..i]);
      if parsed.Err? {
        return Err(BadLine(parsed.error)), rest;
      }
      ParseRequestAccepts(raw, t, i, i + 2, parsed.value);
      rest := t[i + 2..];
      read := Ok((t[..i], parsed.value));
    }

    /** The assignments to `buf` and the request-line fields in ParsedRequest_parse. */
    method KeepRequestLine(line: string, rl: RequestLine)
      requires Valid()
      modifies this
      ensures Valid() && headers == old(headers) && Slots() == old(Slots())
      ensures buf == Some(line) && LineFields() == rl
    {
      buf := Some(line);
      httpMethod, protocol, host, port, path, version := rl.httpMethod, rl.protocol, rl.host, rl.port, rl.path, rl.version;
    }

    /**
     * The header loop of ParsedRequest_parse over the text `t` after the
     * request line: every header line read is set in order, and the result
     * is -1 exactly when a line had no colon.
     */
    method ParseHeaderLines(t: string) returns (r: int)
      requires Valid()
      modifies this, headers
      ensures Valid() && (headers == old(headers) || fresh(headers))
      ensures buf == old(buf) && LineFields() == old(LineFields())
      ensures Slots() == SetAll(old(Slots()), HeaderFields(t).fields)
      ensures r == (if HeaderFields(t).complete then 0 else -1)
    {
      ghost var start := Slots();
      ghost var total := HeaderFields(t);
      ghost var done: seq<(string, string)> := [];
      ScanFromStart(t);
      assert t[0..] == t;
      r := 0;
      var cur := 0;
      while cur < |t| && !HasPrefix(t[cur..], "\r\n")
        invariant cur <= |t|
        invariant Valid() && (headers == old(headers) || fresh(headers))
        invariant buf == old(buf) && LineFields() == old(LineFields())
        invariant Slots() == SetAll(start, done)
        invariant total == ScanFrom(t[cur..], done)
        decreases |t| - cur
      {
        var ok := ParseHeader(t[cur..]);
        if ok != 0 {
          LoopNoColon(t[cur..], done, total);
          r := -1;
          return;
        }
        SetAllSnoc(start, done, SplitHeader(t[cur..]).value);
        var crlf := Find(t[cur..], "\r\n");
        if crlf.None? {
          LoopLastLine(t[cur..], done, total);
          return;
        }
        // strlen(currentHeader) >= 2 always holds at a CRLF, so the loop never stops there.
        ghost var before, doneBefore := cur, done;
        done := done + [SplitHeader(t[cur..]).value];
        cur := cur + crlf.value + 2;
        LoopNextLine(t, before, cur, crlf.value, doneBefore, done, total);
      }
      LoopAtEnd(t[cur..], done, total);
    }
  }
}
