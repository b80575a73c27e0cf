/**
 * A whole request as ParsedRequest_parse reads it: the length limits, the
 * search for the end of the header block, the request line, and the loop
 * that reads one header line after another.  These functions are the
 * specification that `ProxyParse.ParsedRequest.Parse` is proved against.
 *
 * `t` below is always the request text: the C string that strndup makes of
 * the caller's buffer, so it holds no NUL and its end is the end of the
 * string.
 */
module Requests {
  import opened Wrappers
  import opened CStrings
  import opened HeaderSlots
  import opened RequestLines

  /** MIN_REQ_LEN and MAX_REQ_LEN of proxy_parse.c. */
  const MinReqLen: nat := 4
  const MaxReqLen: nat := 65535

  /** What the header loop collected, and whether it ended without a failed line. */
  datatype Scan = Scan(fields: seq<(string, string)>, complete: bool)

  /** The early `return -1`s of ParsedRequest_parse that do not depend on the object. */
  datatype RequestError =
    | BadLength               // buflen outside MIN_REQ_LEN .. MAX_REQ_LEN
    | NoHeaderEnd             // no "\r\n\r\n" in the request text
    | BadLine(reason: LineError)

  /** A request that got past its request line: the copied line, its fields, and the headers. */
  datatype Request = Request(line: string, requestLine: RequestLine, headers: Scan)

  /**
   * ParsedHeader_parse on the text from the start of a header line to the
   * end of the request: the key runs up to the first ':' anywhere after the
   * line start, and the value starts two characters after that ':' and
   * runs up to the next CRLF.
   */
  function SplitHeader(line: string): Option<(string, string)> {
    match IndexOf(line, ':')
    case None => None
    case Some(c) =>
      var after := if c + 2 <= |line| then line[c + 2..] else "";
      match Find(after, "\r\n")
      case None => Some((line[..c], after))
      case Some(e) => Some((line[..c], after[..e]))
  }

  /**
   * A line without a ':' anywhere after it fails; otherwise the key is the
   * text before the first ':' and the value holds no CRLF.
   */
  lemma {:induction false} SplitHeaderSpec(line: string)
    ensures SplitHeader(line).None? <==> Avoids(line, ':')
    ensures SplitHeader(line).Some? ==>
      var key := SplitHeader(line).value.0;
      |key| < |line| && line[..|key|] == key && line[|key|] == ':' && Avoids(key, ':')
    ensures SplitHeader(line).Some? ==> forall j: nat :: !OccursAt(SplitHeader(line).value.1, "\r\n", j)
  {
    IndexOfSpec(line, ':');
    match IndexOf(line, ':')
    case None =>
    case Some(c) =>
      var after := if c + 2 <= |line| then line[c + 2..] else "";
      FindSpec(after, "\r\n");
      match Find(after, "\r\n")
      case None =>
      case Some(e) =>
        forall j: nat | OccursAt(after[..e], "\r\n", j)
          ensures OccursAt(after, "\r\n", j)
        {
          OccursInPrefix(after, "\r\n", e, j);
        }
  }

  /** What one turn of the header loop finds at the start of a line. */
  datatype LineStep =
    | EndOfHeaders                                   // the end of the text, or an empty line
    | NoColon                                        // ParsedHeader_parse fails
    | LastLine(field: (string, string))              // a field, and no CRLF after the line start
    | NextAt(field: (string, string), skip: nat)     // a field, and the first CRLF at `skip`

  /** One turn of the header loop of ParsedRequest_parse (proxy_parse.c:359-367), at the start of `s`. */
  function Step(s: string): (r: LineStep)
    ensures r.NextAt? ==> r.skip + 2 <= |s|
  {
    if s == [] || HasPrefix(s, "\r\n") then EndOfHeaders
    else
      match SplitHeader(s)
      case None => NoColon
      case Some(f) =>
        match Find(s, "\r\n")
        case None => LastLine(f)
        case Some(k) => NextAt(f, k)
  }

  /**
   * The header loop of ParsedRequest_parse on the text `s` from the start of
   * the current header line to the end of the request: stop at the end of
   * the text or at an empty line; a line whose colon cannot be found ends the
   * loop with a failure; otherwise the next line starts after the first CRLF
   * at or after the start of this one.
   */
  function HeaderFields(s: string): (r: Scan) {
    ScanLines(s)
  }

  /**
   * The loop itself, one line per call.  HeaderFields is this function
   * under a second name that does not recurse, so that its callers see one
   * turn of the loop only when they ask for it (HeaderFieldsStep).
   */
  function ScanLines(s: string): (r: Scan)
    decreases |s|
  {
    var step := Step(s);
    if step.NextAt? then
      var next := ScanLines(s[step.skip + 2..]);
      Scan([step.field] + next.fields, next.complete)
    else
      Scan(if step.LastLine? then [step.field] else [], !step.NoColon?)
  }

  /** One turn of the header loop: a line read as a field, and the next line after its first CRLF. */
  lemma {:induction false} HeaderFieldsStep(s: string, f: (string, string), k: nat, more: string)
    requires Step(s) == NextAt(f, k) && k + 2 <= |s| && s[k + 2..] == more
    ensures HeaderFields(s) == Scan([f] + HeaderFields(more).fields, HeaderFields(more).complete)
  {
  }

  /**
   * The header loop as it runs, one line per turn, with the fields read so
   * far in `done`.
   */
  function ScanFrom(s: string, done: seq<(string, string)>): (r: Scan) {
    ScanTurns(s, done)
  }

  /**
   * The turns of the loop, one per call.  ScanFrom is this function under a
   * second name that does not recurse, for the same reason as HeaderFields.
   */
  function ScanTurns(s: string, done: seq<(string, string)>): (r: Scan)
    decreases |s|
  {
    var step := Step(s);
    if step.NextAt? then ScanTurns(s[step.skip + 2..], done + [step.field])
    else Scan(if step.LastLine? then done + [step.field] else done, !step.NoColon?)
  }

  /** Running the loop after `done` was read appends what the scan of the rest reads. */
  lemma {:induction false} ScanFromSplit(s: string, done: seq<(string, string)>)
    ensures ScanFrom(s, done) == Scan(done + HeaderFields(s).fields, HeaderFields(s).complete)
    decreases |s|
  {
    var step := Step(s);
    if step.NextAt? {
      var next := s[step.skip + 2..];
      ScanFromSplit(next, done + [step.field]);
      assert (done + [step.field]) + HeaderFields(next).fields == done + ([step.field] + HeaderFields(next).fields);
    } else if !step.LastLine? {
      assert done + [] == done;
    }
  }

  /** Running the loop from nothing read yields the header scan. */
  lemma ScanFromStart(s: string)
    ensures ScanFrom(s, []) == HeaderFields(s)
  {
    ScanFromSplit(s, []);
    assert [] + HeaderFields(s).fields == HeaderFields(s).fields;
  }

  // The four ways one turn of the header loop can go, stated on the tests
  // the loop itself makes.

  /** The loop stops at the end of the text or at an empty line. */
  lemma LoopAtEnd(s: string, done: seq<(string, string)>, total: Scan)
    requires s == [] || HasPrefix(s, "\r\n")
    requires total == ScanFrom(s, done)
    ensures total.fields == done && total.complete
  {
  }

  /** A line with no ':' after its start ends the loop with a failure. */
  lemma LoopNoColon(s: string, done: seq<(string, string)>, total: Scan)
    requires s != [] && !HasPrefix(s, "\r\n") && SplitHeader(s).None?
    requires total == ScanFrom(s, done)
    ensures total.fields == done && !total.complete
  {
  }

  /** A field with no CRLF after its start is the last one read. */
  lemma LoopLastLine(s: string, done: seq<(string, string)>, total: Scan)
    requires s != [] && !HasPrefix(s, "\r\n") && SplitHeader(s).Some? && Find(s, "\r\n").None?
    requires total == ScanFrom(s, done)
    ensures total.fields == done + [SplitHeader(s).value] && total.complete
  {
  }

  /**
   * A field, and the loop goes on after the first CRLF: what is left to scan
   * from `after`, with the field added to `done`, is what was left from `before`.
   */
  lemma LoopNextLine(t: string, before: nat, after: nat, k: nat, done: seq<(string, string)>,
                     doneAfter: seq<(string, string)>, total: Scan)
    requires before < |t| && !HasPrefix(t[before..], "\r\n") && SplitHeader(t[before..]).Some?
    requires Find(t[before..], "\r\n") == Some(k) && after == before + k + 2
    requires doneAfter == done + [SplitHeader(t[before..]).value]
    requires total == ScanFrom(t[before..], done)
    ensures after <= |t| && total == ScanFrom(t[after..], doneAfter)
  {
    assert t[before..][k + 2..] == t[after..];
  }

  /** Every "\r\n\r\n" starts with a "\r\n", so the first CRLF comes no later than the first empty line. */
  lemma {:induction false} LineEndBeforeHeaderEnd(t: string)
    requires Find(t, "\r\n\r\n").Some?
    ensures Find(t, "\r\n").Some? && Find(t, "\r\n").value <= Find(t, "\r\n\r\n").value
  {
    var j := Find(t, "\r\n\r\n").value;
    FindSpec(t, "\r\n\r\n");
    FindSpec(t, "\r\n");
    assert t[j..j + 4][..2] == t[j..j + 2];
    assert OccursAt(t, "\r\n", j);
  }

  /** Where the request line ends: strstr(tmp_buf, "\r\n"), once an empty line is known to exist. */
  function LineEnd(t: string): (i: nat)
    requires Find(t, "\r\n\r\n").Some?
    ensures Find(t, "\r\n") == Some(i)
    ensures HasPrefix(t, t[..i] + "\r\n")
  {
    LineEndBeforeHeaderEnd(t);
    FindSpec(t, "\r\n");
    var i := Find(t, "\r\n").value;
    assert t[..i] + "\r\n" == t[..i + 2];
    i
  }

  /** The request text: strndup(buf, buflen) stops at the first NUL. */
  function RequestText(raw: string): (t: string)
    ensures NoNul(t) && HasPrefix(raw, t)
    ensures |t| == |raw| || raw[|t|] == '\0'
  {
    CStrAt(raw, 0)
  }

  /**
   * ParsedRequest_parse on a fresh object (proxy_parse.c:249-368): `raw` is
   * the caller's `buflen` bytes.  The request line is the text before the
   * first CRLF; the header lines start right after it.
   */
  function ParseRequest(raw: string): (r: Result<Request, RequestError>)
    ensures r.Ok? ==> HasPrefix(raw, r.value.line + "\r\n")
    ensures r.Ok? ==> ParseLine(r.value.line) == Ok(r.value.requestLine)
    ensures r.Ok? ==> MinReqLen <= |raw| <= MaxReqLen
  {
    if |raw| < MinReqLen || |raw| > MaxReqLen then Err(BadLength)
    else
      var t := RequestText(raw);
      if Find(t, "\r\n\r\n").None? then Err(NoHeaderEnd)
      else
        var i := LineEnd(t);
        PrefixTrans(raw, t, t[..i] + "\r\n");
        match ParseLine(t[..i])
        case Err(e) => Err(BadLine(e))
        case Ok(rl) => Ok(Request(t[..i], rl, HeaderFields(t[i + 2..])))
  }

  // ---------------------------------------------------------------------
  // Reading back what ParsedRequest_unparse writes

  /** A header field that prints as one line and reads back as itself. */
  predicate PlainField(f: (string, string)) {
    Avoids(f.0, ':') && Plain(f.0) && Plain(f.1)
  }

  /** Every field of the list is plain. */
  predicate PlainFields(fields: seq<(string, string)>) {
    fields == [] || (PlainField(fields[0]) && PlainFields(fields[1..]))
  }

  /** The bytes of a request whose line and fields are printed, followed by a body. */
  function RequestBytes(rl: RequestLine, fields: seq<(string, string)>, body: string): string {
    FormatRequestLine(rl) + FieldLines(fields) + "\r\n" + body
  }

  /** ParsedHeader_parse reads a printed header line back as its key and value. */
  lemma {:induction false} SplitHeaderOfLine(key: string, value: string, more: string)
    requires Avoids(key, ':') && Avoids(value, '\r')
    ensures SplitHeader(key + ": " + value + "\r\n" + more) == Some((key, value))
  {
    var line := key + ": " + value + "\r\n" + more;
    var rest := " " + value + "\r\n" + more;
    assert line == key + [':'] + rest;
    IndexOfAfter(key, ':', rest);
    assert line[..|key|] == key;
    var after := line[|key| + 2..];
    assert after == value + "\r\n" + more;
    CrLfAfter(value, more);
    assert after[..|value|] == value;
  }

  /** A printed header line, followed by anything: not an empty line, read as its field, ended by its CRLF. */
  lemma {:induction false} FieldLineAt(f: (string, string), more: string)
    requires PlainField(f)
    ensures var s := f.0 + ": " + f.1 + "\r\n" + more;
      && Step(s) == NextAt(f, |f.0| + 2 + |f.1|)
      && |f.0| + 2 + |f.1| + 2 <= |s| && s[|f.0| + 2 + |f.1| + 2..] == more
  {
    var s := f.0 + ": " + f.1 + "\r\n" + more;
    assert s[|f.0| + 2 + |f.1| + 2..] == more;
    if f.0 == [] {
      assert s[0] == ':';
    } else {
      assert s[0] == f.0[0];
    }
    SplitHeaderOfLine(f.0, f.1, more);
    assert Avoids(f.0 + ": " + f.1, '\r');
    CrLfAfter(f.0 + ": " + f.1, more);
  }

  /** The header loop reads printed header fields back, in order, and stops at the empty line. */
  lemma {:induction false} HeaderFieldsOfLines(fields: seq<(string, string)>, body: string)
    requires PlainFields(fields)
    ensures HeaderFields(FieldLines(fields) + "\r\n" + body) == Scan(fields, true)
    decreases |fields|
  {
    var s := FieldLines(fields) + "\r\n" + body;
    if fields == [] {
      assert s[..2] == "\r\n";
      assert Step(s) == EndOfHeaders;
    } else {
      var f := fields[0];
      var line := f.0 + ": " + f.1 + "\r\n";
      var more := FieldLines(fields[1..]) + "\r\n" + body;
      assert s == line + more;
      FieldLineAt(f, more);
      HeaderFieldsStep(line + more, f, |f.0| + 2 + |f.1|, more);
      HeaderFieldsOfLines(fields[1..], body);
      ScanCons(HeaderFields(s), f, fields, HeaderFields(more));
    }
  }

  /** The field list of a scan that read `f` and then the rest of `fields`. */
  lemma ScanCons(s: Scan, f: (string, string), fields: seq<(string, string)>, next: Scan)
    requires fields != [] && f == fields[0]
    requires s == Scan([f] + next.fields, next.complete)
    requires next == Scan(fields[1..], true)
    ensures s == Scan(fields, true)
  {
    assert [fields[0]] + fields[1..] == fields;
  }

  /** A printed request line holds no carriage return. */
  lemma {:induction false} LineTextPlain(rl: RequestLine)
    requires WellFormed(rl)
    ensures Avoids(LineText(rl), '\r') && NoNul(LineText(rl))
  {
    PlainConcat(rl.httpMethod, " ");
    PlainConcat(rl.httpMethod + " ", rl.protocol);
    PlainConcat(rl.httpMethod + " " + rl.protocol, "://");
    PlainConcat(rl.httpMethod + " " + rl.protocol + "://", rl.host);
    PlainConcat(rl.httpMethod + " " + rl.protocol + "://" + rl.host, PortSuffix(rl.port));
    PlainConcat(rl.httpMethod + " " + rl.protocol + "://" + rl.host + PortSuffix(rl.port), rl.path);
    PlainConcat(rl.httpMethod + " " + rl.protocol + "://" + rl.host + PortSuffix(rl.port) + rl.path, " ");
    PlainConcat(rl.httpMethod + " " + rl.protocol + "://" + rl.host + PortSuffix(rl.port) + rl.path + " ", rl.version);
  }

  /** Printed header fields hold no NUL. */
  lemma {:induction false} FieldLinesNoNul(fields: seq<(string, string)>)
    requires PlainFields(fields)
    ensures NoNul(FieldLines(fields))
  {
    if fields != [] {
      FieldLinesNoNul(fields[1..]);
    }
  }

  /** Printed header fields end with a CRLF, when there are any. */
  lemma {:induction false} FieldLinesEnd(fields: seq<(string, string)>)
    requires fields != []
    ensures var s := FieldLines(fields); |s| >= 2 && s[|s| - 2..] == "\r\n"
  {
    if fields[1..] != [] {
      FieldLinesEnd(fields[1..]);
    }
  }

  /** The request text ends its header block where the printed fields end. */
  lemma {:induction false} HeaderEndOfBytes(rl: RequestLine, fields: seq<(string, string)>, body: string)
    ensures Find(RequestBytes(rl, fields, body), "\r\n\r\n").Some?
  {
    var u := LineText(rl) + "\r\n" + FieldLines(fields);
    if fields == [] {
      assert u[|u| - 2..] == "\r\n";
    } else {
      FieldLinesEnd(fields);
      assert u[|u| - 2..] == FieldLines(fields)[|FieldLines(fields)| - 2..];
    }
    var raw := RequestBytes(rl, fields, body);
    assert raw == u + "\r\n" + body;
    assert raw[|u| - 2..|u| + 2] == u[|u| - 2..] + "\r\n";
    assert OccursAt(raw, "\r\n\r\n", |u| - 2);
    FindSpec(raw, "\r\n\r\n");
  }

  /**
   * ParsedRequest_parse reads back the request line and header fields that
   * ParsedRequest_unparse prints, whatever follows the empty line.
   */
  lemma {:induction false} ParseRequestRoundTrip(rl: RequestLine, fields: seq<(string, string)>, body: string)
    requires WellFormed(rl)
    requires PlainFields(fields)
    requires NoNul(body) && |RequestBytes(rl, fields, body)| <= MaxReqLen
    ensures ParseRequest(RequestBytes(rl, fields, body)) == Ok(Request(LineText(rl), rl, Scan(fields, true)))
  {
    var raw := RequestBytes(rl, fields, body);
    var lt := LineText(rl);
    BytesOfRequest(rl, fields, body);
    ParseFormatRoundTrip(rl);
    AcceptsPrinted(raw, lt, rl, fields, body);
  }

  /** The facts about the printed request that the parse depends on. */
  lemma {:induction false} BytesOfRequest(rl: RequestLine, fields: seq<(string, string)>, body: string)
    requires WellFormed(rl)
    requires PlainFields(fields)
    requires NoNul(body)
    ensures var raw, lt := RequestBytes(rl, fields, body), LineText(rl);
      && MinReqLen <= |raw| && RequestText(raw) == raw
      && Find(raw, "\r\n\r\n").Some? && Find(raw, "\r\n") == Some(|lt|)
      && |lt| + 2 <= |raw| && raw[..|lt|] == lt
      && raw[|lt| + 2..] == FieldLines(fields) + "\r\n" + body
  {
    var raw := RequestBytes(rl, fields, body);
    var lt := LineText(rl);
    LineTextPlain(rl);
    FieldLinesNoNul(fields);
    ConcatAssoc(lt + "\r\n", FieldLines(fields), "\r\n");
    ConcatAssoc(lt + "\r\n", FieldLines(fields) + "\r\n", body);
    NoNulConcat(lt, "\r\n");
    NoNulConcat(lt + "\r\n", FieldLines(fields) + "\r\n" + body);
    CStrAtWhole(raw);
    HeaderEndOfBytes(rl, fields, body);
    CrLfAfter(lt, FieldLines(fields) + "\r\n" + body);
    assert raw[..|lt|] == lt;
    assert raw[|lt| + 2..] == FieldLines(fields) + "\r\n" + body;
  }

  /** ParsedRequest_parse on text of the printed shape reads back its request line and fields. */
  lemma AcceptsPrinted(raw: string, lt: string, rl: RequestLine, fields: seq<(string, string)>, body: string)
    requires ParseLine(lt) == Ok(rl) && PlainFields(fields)
    requires MinReqLen <= |raw| <= MaxReqLen && RequestText(raw) == raw
    requires Find(raw, "\r\n\r\n").Some? && Find(raw, "\r\n") == Some(|lt|)
    requires |lt| + 2 <= |raw| && raw[..|lt|] == lt
    requires raw[|lt| + 2..] == FieldLines(fields) + "\r\n" + body
    ensures ParseRequest(raw) == Ok(Request(lt, rl, Scan(fields, true)))
  {
    HeaderFieldsOfLines(fields, body);
    ParseRequestAccepts(raw, raw, |lt|, |lt| + 2, rl);
    SameRequest(ParseRequest(raw), raw[..|lt|], lt, rl, HeaderFields(raw[|lt| + 2..]), Scan(fields, true));
  }

  /** ParsedRequest_parse accepts a request whose request line is accepted. */
  lemma ParseRequestAccepts(raw: string, t: string, i: nat, j: nat, rl: RequestLine)
    requires MinReqLen <= |raw| <= MaxReqLen && RequestText(raw) == t
    requires Find(t, "\r\n\r\n").Some? && Find(t, "\r\n") == Some(i) && j == i + 2
    requires ParseLine(t[..i]) == Ok(rl)
    ensures j <= |t| && ParseRequest(raw) == Ok(Request(t[..i], rl, HeaderFields(t[j..])))
  {
  }

  /** A proof step only: the same result, with its parts named by equal terms. */
  lemma SameRequest(r: Result<Request, RequestError>, a: string, b: string, rl: RequestLine, s: Scan, s': Scan)
    requires r == Ok(Request(a, rl, s)) && a == b && s == s'
    ensures r == Ok(Request(b, rl, s'))
  {
  }

  /**
   * Parsing printed fields with distinct keys into an empty header table
   * and printing the table again gives back the same bytes.
   */
  lemma {:induction false} UnparseAfterParse(rl: RequestLine, fields: seq<(string, string)>, body: string)
    requires DistinctKeys(fields)
    ensures FormatRequestLine(rl) + HeaderBlock(SetAll([], fields)) + body == RequestBytes(rl, fields, body)
  {
    SetAllFresh([], fields);
    assert [] + LiveSlots(fields) == LiveSlots(fields);
    LinesOfLiveSlots(fields);
    ConcatAssoc(FormatRequestLine(rl), FieldLines(fields), "\r\n");
  }
}
