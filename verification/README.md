# A model of the proxy's request parser, header table and response cache

The repository is a multi-threaded HTTP proxy in C. A worker thread reads a
client's request and parses it with the small request-parsing library of
`proxy_parse.c`. It then looks the request text up in an in-memory cache of
responses. On a miss it rewrites the request for the origin server and sends
it there. The response is then cached.

This project models the parts that decide what the proxy reads, stores and
sends. Each is proved against a specification written as Dafny functions:

- **The header table** (`HeaderSlots`, `ProxyParse.ParsedRequest`). This is
  the growable array of `struct ParsedHeader` slots of a `struct
  ParsedRequest`: `ParsedHeader_set`, `_get`, `_remove`, `_parse`,
  `_lineLen`, `_headersLen` and `_printHeaders`. A removed header leaves a
  tombstone slot (NULL key). The class keeps the array, its `headersused` and
  `headerslen` counters, the copied request line `buf` and the request-line
  fields.
- **The request-line parser** (`RequestLines`). This models the chain of
  `strtok_r` calls in `ParsedRequest_parse` that splits an absolute-form
  request line into method, protocol, host, port, path and version. Every
  quirk is kept:
  - the `"://"` delimiter argument is a set of characters;
  - the version is read at a fixed offset after the target;
  - the "missing path" check measures a C string inside memory into which
    `strtok_r` has written NULs.
- **The request parser as a whole** (`Requests`): the length limits, the
  search for the empty line, and the header-line loop. It comes with the
  serialiser `ParsedRequest_unparse` and `_unparse_headers`, the length
  functions, and two round trips: parse after print, and print after parse.
- **The response cache** (`ProxyCache`). This models the linked list of
  `cache_element`s with its running `cache_size`: `find`, which refreshes the
  timestamp, `remove_cache_element`, which evicts the least recently used
  element, and `add_cache_element`, which refuses oversized elements and
  evicts until the new one fits.
- **The worker's request-side work** (`ProxyServer`):
  - `checkHTTPversion`;
  - the prefix of `handle_request` that formats the origin-form request line
    into a `MAX_BYTES` buffer, sets `Connection: close`, adds `Host` when
    absent, writes the header block after the line, and picks the server
    port.

The C library routines the code depends on are modelled as functions on
character sequences in `CStrings`: `strtok_r`, `strstr`, `strchr`, `strspn`,
`strcspn`, `strndup`'s stop at the first NUL, `strtol`, `atoi` and `memcpy`.
`strncmp` is modelled in `ProxyServer`, next to `checkHTTPversion`, its only
user. `atoi` follows glibc, which defines it as `(int) strtol(s, NULL, 10)` on
a 32-bit `int` and a 64-bit `long`.
A C string is the sequence of its characters without the terminating NUL.
Memory that a routine reads or writes at an offset is a sequence image of the
buffer. `time(NULL)` is the parameter `now`. The contents of a fresh
`malloc`'d buffer are the parameter `mem`.

## Model

| member | source | states |
|---|---|---|
| CStrings.StrTok | proxy_parse.c:266-342 | strtok_r: no token exactly when the input holds only delimiters; otherwise the token is the first maximal delimiter-free run after the leading delimiters, and the saved pointer resumes just after the delimiter it overwrote, or at the end when none followed |
| CStrings.FindSpec | proxy_parse.c:255 | strstr returns the first occurrence of the pattern, and NULL only when the pattern occurs nowhere |
| CStrings.IndexOfSpec | proxy_parse.c:150 | strchr returns the first occurrence of the character, and NULL only when it does not occur |
| CStrings.CStrAt | proxy_parse.c:302-303 | the C string read at an offset of a memory image holds no NUL and ends at the first NUL or at the end of the image |
| CStrings.StrToL | proxy_server_with_cache.c:126 | strtol's result lies within the range of long, and is the leading integer of the text whenever that fits |
| CStrings.Atoi | proxy_server_with_cache.c:126 | atoi's result lies within the range of int, and is the leading integer of the text whenever that fits an int |
| CStrings.LeadingIntegerOfDecimal | proxy_server_with_cache.c:126 | the leading integer of the decimal numeral of a natural number is that number |
| CStrings.AtoiOfDecimal | proxy_server_with_cache.c:126 | atoi reads back every decimal numeral of an int that is not negative |
| CStrings.AtoiKeepsLowBits | proxy_server_with_cache.c:126 | a numeral between 2^32 and 2^32 + INT_MAX reads as its value less 2^32: the port "4294967376" becomes 80 |
| CStrings.OverwriteSpec | proxy_parse.c:118-121 | memcpy writes the source bytes at the offset and leaves every other byte of the buffer alone |
| CStrings.OverwriteAppend | proxy_parse.c:118-122 | two memcpy calls to adjacent ranges write the concatenation of their sources |
| CStrings.MemCpy | proxy_parse.c:118-121 | the byte-copy loop leaves the array equal to the memory image with the source written at the offset |
| HeaderSlots.FirstLive | proxy_parse.c:60-68 | ParsedHeader_get finds a live slot with the key, no earlier slot has the key, and NULL means no slot has it |
| HeaderSlots.RemoveSlotEffect | proxy_parse.c:71-80 | ParsedHeader_remove of an absent key changes nothing; otherwise exactly the first slot with the key becomes a tombstone |
| HeaderSlots.RemoveThenAbsent | proxy_parse.c:71-80 | with unique keys, after a removal no live slot has the key and keys stay unique |
| HeaderSlots.SetThenGet | proxy_parse.c:37-57 | after ParsedHeader_set the key is found in the new last slot with the new value, slots of other keys are untouched, and keys stay unique |
| HeaderSlots.SetKeepsOtherKey | proxy_parse.c:37-57 | setting one key leaves the position and content of any other key's slot unchanged |
| HeaderSlots.SetAfterRemove | proxy_parse.c:37-40 | a key removed and then set again is visible only in the new last slot |
| HeaderSlots.SetAllUnique | proxy_parse.c:357-368 | any sequence of sets, as the header loop makes them, keeps keys unique |
| HeaderSlots.SetAllSnoc | proxy_parse.c:357-368 | one more header line read is one more set after the earlier ones |
| HeaderSlots.LineLen | proxy_parse.c:92-94 | ParsedHeader_lineLen is the length of the line the printer writes for the slot |
| HeaderSlots.SlotsLen | proxy_parse.c:96-105 | the sum ParsedHeader_headersLen accumulates is the length of the printed lines |
| HeaderSlots.LinesAppend | proxy_parse.c:116-125 | the printed lines of two consecutive slot ranges are the lines of the first followed by those of the second; tombstones print nothing |
| HeaderSlots.LinesPrefix | proxy_parse.c:116-125 | each loop turn of the printer appends exactly the line of slot i |
| HeaderSlots.LinesOfLiveSlots | proxy_parse.c:116-125 | a table of live slots prints the lines "key: value\r\n" of its fields in order |
| HeaderSlots.SetAllFresh | proxy_parse.c:37-57 | setting distinct fresh keys only appends one live slot per field, in order |
| RequestLines.ParseTarget | proxy_parse.c:293-342 | an accepted target has a non-empty protocol without ':' or '/', a non-empty host without ':', and a path that starts with exactly one '/' |
| RequestLines.ParseLine | proxy_parse.c:262-342 | an accepted request line has method "GET" and a version that starts with "HTTP/" |
| RequestLines.RequestLineLength | proxy_parse.c:377-386 | ParsedRequest_requestLineLen is exactly the number of bytes the request-line printer writes |
| RequestLines.ParseTargetRoundTrip | proxy_parse.c:293-342 | the target printed from well-formed fields is parsed back into the same protocol, host, port and path |
| RequestLines.ParseFormatRoundTrip | proxy_parse.c:266-342 | the request line printed from well-formed fields is parsed back into the same fields |
| RequestLines.RejectsOtherMethods | proxy_parse.c:266-273 | a first token other than "GET" is refused |
| RequestLines.RejectsMissingTarget | proxy_parse.c:275-282 | "GET" followed only by spaces is refused for lack of a target |
| RequestLines.RejectsMissingVersion | proxy_parse.c:284-291 | a target that is the last token of the line is refused for lack of a version |
| RequestLines.RejectsBadVersion | proxy_parse.c:284-291 | a version not starting with "HTTP/" is refused |
| RequestLines.LineOfTarget | proxy_parse.c:266-342 | with method "GET" and an "HTTP/" version, the line is accepted or refused exactly as its target is |
| RequestLines.RejectsMissingPath | proxy_parse.c:302-312 | a target without a '/' after the authority is refused, because the host token spans the whole remainder |
| RequestLines.RejectsDoubleSlash | proxy_parse.c:314-323 | a path that starts with "//" is refused |
| RequestLines.SchemeDelimiterIsASet | proxy_parse.c:293-312 | "http:/host/path" is accepted like "http://host/path": the "://" passed to strtok_r is a set of delimiters |
| RequestLines.VersionPastTheCopy | proxy_parse.c:284 | as written, for a line whose target is its last token, the version pointer is one byte past the copied line and its NUL |
| RequestLines.VersionInsideTheLine | proxy_parse.c:284-291 | for every accepted line, the version the parser reports lies inside the copied line, at the offset the C pointer arithmetic computes |
| Requests.SplitHeaderSpec | proxy_parse.c:149-165 | ParsedHeader_parse fails exactly when no ':' follows the line start; otherwise the key is the text before the first ':' and the value holds no CRLF |
| Requests.HeaderFieldsStep | proxy_parse.c:357-368 | one turn of the header loop reads one field and continues after the first CRLF |
| Requests.LoopAtEnd | proxy_parse.c:359 | the header loop stops at the end of the text or at an empty line, successfully |
| Requests.LoopNoColon | proxy_parse.c:360-363 | a header line without a colon ends the loop with a failure and no field from that line |
| Requests.LoopLastLine | proxy_parse.c:364-366 | a field with no CRLF after it is the last field read, and the loop succeeds |
| Requests.LoopNextLine | proxy_parse.c:364-367 | after a field the loop resumes two characters past the first CRLF |
| Requests.LineEndBeforeHeaderEnd | proxy_parse.c:255-262 | once an empty line exists, a CRLF exists no later than it, so the request line can be cut |
| Requests.LineEnd | proxy_parse.c:262-263 | the request line ends at the first CRLF of the text |
| Requests.RequestText | proxy_parse.c:254 | strndup's copy holds no NUL, is a prefix of the caller's bytes, and stops only at the first NUL or at the end of the bytes |
| Requests.ParseRequest | proxy_parse.c:249-368 | an accepted request lies within the length limits, starts with its request line and a CRLF, and that line parses to the reported fields |
| Requests.HeaderFieldsOfLines | proxy_parse.c:357-368 | the header loop reads printed header lines back as their fields, in order, and stops at the empty line |
| Requests.ParseRequestRoundTrip | proxy_parse.c:243-371 | parsing the bytes of a printed request line, printed header lines, an empty line and any body gives back the same line, fields and header list |
| Requests.UnparseAfterParse | proxy_parse.c:200-210 | setting header fields with distinct keys into an empty table and printing the request gives back the bytes whose parse yields those fields (ParseRequestRoundTrip) |
| ProxyParse.ParsedRequest.constructor | proxy_parse.c:181-194 | a new request has eight free slots, no headers and no request line |
| ProxyParse.ParsedRequest.Get | proxy_parse.c:60-68 | the slot-by-slot search returns exactly the first live slot with the key |
| ProxyParse.ParsedRequest.Remove | proxy_parse.c:71-80 | returns -1 exactly when the key is absent, and tombstones its first slot otherwise; counters unchanged, keys stay unique |
| ProxyParse.ParsedRequest.Set | proxy_parse.c:37-57 | always returns 0; the key is then found in the new last slot; one slot is used more; the array doubles exactly when the slot after the new one would not exist; the request line is untouched |
| ProxyParse.ParsedRequest.Grow | proxy_parse.c:41-46 | the reallocation doubles the slots and keeps the used ones |
| ProxyParse.ParsedRequest.Append | proxy_parse.c:48-55 | the next free slot is filled and counted, in place |
| ProxyParse.ParsedRequest.ParseHeader | proxy_parse.c:149-165 | -1 and no change when there is no colon; otherwise 0 and the key and value read are set |
| ProxyParse.ParsedRequest.HeadersLen | proxy_parse.c:96-105 | 0 without a request line, otherwise the length of the header block the printer writes |
| ProxyParse.ParsedRequest.RequestLineLen | proxy_parse.c:377-386 | 0 without a request line, otherwise the length of the printed request line |
| ProxyParse.ParsedRequest.TotalLen | proxy_parse.c:226-230 | 0 without a request line, otherwise the length of what ParsedRequest_unparse writes |
| ProxyParse.ParsedRequest.PrintHeaders | proxy_parse.c:107-127 | a short buffer is refused before any write; otherwise the buffer holds every live slot's line in slot order and the empty line, and nothing else changes |
| ProxyParse.ParsedRequest.PrintRequestLine | proxy_parse.c:388-421 | a short buffer is refused before any write; otherwise the printed request line is written at the start and its length is returned |
| ProxyParse.ParsedRequest.WriteRequestLine | proxy_parse.c:395-419 | the memcpy calls write exactly the printed request line |
| ProxyParse.ParsedRequest.Unparse | proxy_parse.c:200-210 | -1 without a request line or when it does not fit; -1 with only the line written when the headers do not fit; otherwise 0 with line and header block written |
| ProxyParse.ParsedRequest.UnparseHeaders | proxy_parse.c:216-223 | -1 and no write without a request line or when the block does not fit; otherwise 0 and the header block written at the offset |
| ProxyParse.ParsedRequest.Parse | proxy_parse.c:243-371 | refuses a used object and every request ParseRequest refuses, leaving buf, the request-line fields, the slot array, its contents and both counters as they were (buf stays NULL on a refusal of a fresh object); otherwise keeps the line and its fields, sets every header read in order, and returns 0 exactly when no header line lacked a colon |
| ProxyParse.ParsedRequest.ReadRequestLine | proxy_parse.c:249-342 | the checks before the header loop fail exactly when ParseRequest fails, and otherwise yield its line, fields and header text |
| ProxyParse.ParsedRequest.KeepRequestLine | proxy_parse.c:263-342 | the request line and its fields are stored, the header table untouched |
| ProxyParse.ParsedRequest.ParseHeaderLines | proxy_parse.c:357-368 | the header loop sets every field HeaderFields reads, in order, and returns -1 exactly when a line had no colon |
| ProxyCache.FirstUrlSpec | proxy_server_with_cache.c:306-313 | find stops at the first element whose url matches, and at the end only when none matches |
| ProxyCache.RefreshKeepsTotal | proxy_server_with_cache.c:308-310 | refreshing a timestamp leaves cache_size correct |
| ProxyCache.RefreshEffect | proxy_server_with_cache.c:302-317 | a miss changes nothing; a hit changes only the timestamp of the element found |
| ProxyCache.OldestIndexStep | proxy_server_with_cache.c:323-329 | one more turn of the scan replaces the candidate only by a strictly older element |
| ProxyCache.OldestIndexSpec | proxy_server_with_cache.c:322-329 | the element the scan picks is the least recently used, and the first of equally old ones |
| ProxyCache.OldestUnique | proxy_server_with_cache.c:322-329 | any element that is least recently used and first among equals is the one the scan picks |
| ProxyCache.TotalOfEvict | proxy_server_with_cache.c:335 | eviction takes exactly the evicted element's footprint off the total |
| ProxyCache.EvictKeepsOrder | proxy_server_with_cache.c:330-334 | unlinking keeps the other elements in their order |
| ProxyCache.EvictRemovesOne | proxy_server_with_cache.c:330-335 | eviction removes exactly one occurrence of the oldest element and nothing else |
| ProxyCache.EvictUntilFitsRoom | proxy_server_with_cache.c:352-354 | for an element within MAX_ELEMENT_SIZE, the eviction loop stops with room for it under MAX_SIZE |
| ProxyCache.EvictUntilFitsShrinks | proxy_server_with_cache.c:352-354 | the eviction loop only removes elements |
| ProxyCache.RefreshProtects | proxy_server_with_cache.c:302-341 | an element find has just refreshed is not the next one evicted unless it is alone |
| ProxyCache.TotalCons | proxy_server_with_cache.c:382-386 | inserting at the head adds the element's footprint |
| ProxyCache.Cache.constructor | proxy_server_with_cache.c:44-45 | the cache starts empty with cache_size 0 |
| ProxyCache.Cache.Find | proxy_server_with_cache.c:302-317 | returns the first element with the url after refreshing its timestamp, or nothing when none matches; cache_size stays correct |
| ProxyCache.Cache.RemoveCacheElement | proxy_server_with_cache.c:319-341 | on a non-empty list unlinks the least recently used element; cache_size stays the sum of the footprints |
| ProxyCache.Cache.AddCacheElement | proxy_server_with_cache.c:343-390 | refuses an oversized element without change; otherwise evicts until it fits, inserts it at the head with timestamp now, and cache_size stays correct and within MAX_SIZE |
| ProxyServer.CheckHTTPVersion | proxy_server_with_cache.c:159-164 | the result is 1 or -1 |
| ProxyServer.StrNCmpPrefix | proxy_server_with_cache.c:160 | strncmp over the whole of a NUL-free pattern is 0 exactly when the string starts with it |
| ProxyServer.CheckHTTPVersionSpec | proxy_server_with_cache.c:159-164 | the check accepts exactly the versions that begin with "HTTP/1.1" or "HTTP/1.0" |
| ProxyServer.CheckHTTPVersionRefusesTwo | proxy_server_with_cache.c:159-164 | "HTTP/2.0", which the parser accepts, is refused here |
| ProxyServer.CheckHTTPVersionComparesEight | proxy_server_with_cache.c:160 | only eight characters are compared, so "HTTP/1.10" is accepted |
| ProxyServer.OriginLineNoNul | proxy_server_with_cache.c:108 | the formatted origin-form line holds no NUL |
| ProxyServer.Truncated | proxy_server_with_cache.c:108 | snprintf keeps a prefix of the line: all of a line shorter than MAX_BYTES, and exactly MAX_BYTES - 1 characters of a longer one |
| ProxyServer.SnPrintfLength | proxy_server_with_cache.c:108-110 | strlen of the buffer after snprintf is the length of the kept line |
| ProxyServer.SnPrintf | proxy_server_with_cache.c:107-110 | the fresh buffer holds the kept line and a NUL over its old contents |
| ProxyServer.RewriteClosesConnection | proxy_server_with_cache.c:112-120 | after the rewrite the request carries "Connection: close" and keys stay unique |
| ProxyServer.RewriteHost | proxy_server_with_cache.c:116-120 | after the rewrite a Host header exists: the request's host when the client sent none, otherwise the client's own header, untouched |
| ProxyServer.RewriteHeaderTable | proxy_server_with_cache.c:112-120 | the two ParsedHeader_set calls and the get leave the table RewriteHeaders describes |
| ProxyServer.RequestBytesSent | proxy_server_with_cache.c:122-124 | after the header block is written, the first line-plus-block bytes of the buffer are the rewritten request |
| ProxyServer.HandleRequestHeaders | proxy_server_with_cache.c:106-126 | the rewritten buffer holds the origin-form line and the rewritten header block when it fits, the request line alone otherwise; the send length counts exactly those bytes; the port is the int that atoi makes of the port text, or 80 when there is none |
| ProxyServer.StrLenRunsPastHeaders | proxy_server_with_cache.c:133 | as written, with no NUL in the fresh buffer, strlen of the buffer counts all MAX_BYTES bytes, past the end of the request |

## Left out

- Sockets, threads and the semaphore are not modelled: `main`, `thread_fn`, `connectRemoteServer`, `sendErrorMessage`, and the response loop of `handle_request` (proxy_server_with_cache.c:133-157) do I/O only.
- The cache mutex is not modelled. `add_cache_element` holds `lock` (proxy_server_with_cache.c:344) and calls `remove_cache_element`, which locks it again (320). With a default mutex that call deadlocks. The model treats the eviction as a plain call.
- ProxyCache.Cache.Find: it returns a copy of the element. `find` returns a pointer into the shared list that other threads may free after the lock is released; this aliasing is not captured.
- ProxyCache.Cache.AddCacheElement: the three `malloc` failure returns (proxy_server_with_cache.c:356-379) are not modelled, and neither are NUL bytes inside `data`, which `strcpy` (370) would cut short. The element keeps `len = size`, as the source does.
- ProxyCache.ElementSize: `int` overflow of `element_size` and of `cache_size` is not modelled; the arithmetic is on unbounded integers.
- ProxyCache.ElementOverhead: `sizeof(cache_element)` is fixed at 40. Only its being a positive constant is used.
- Allocation failure of `malloc`, `realloc` and `strdup` in proxy_parse.c is not modelled. ProxyParse.ParsedRequest.Set always returns 0 because its `-1` path (proxy_parse.c:44-45) needs a failed `realloc`.
- The destroy functions and `debug` (proxy_parse.c:23-30, 129-147, 171-179) free memory or print; they are not modelled.
- CStrings.Atoi: follows glibc's `(int) strtol(s, NULL, 10)` with a 32-bit `int` and a 64-bit `long`. The C standard leaves `atoi` undefined for a number outside `int`, so another C library may give another port for such text. `errno` is not modelled.
- The port validation of proxy_parse.c:344-355 is not modelled. It relies on `errno` as left by `strtol` and by earlier calls, and the model accepts every port token.
- ProxyParse.ParsedRequest.Parse: `buf` holds the request line as copied. The NULs that `strtok_r` writes into it are modelled only inside `RequestLines`, where the parser reads them back. The field pointers left dangling on the error paths are not modelled; `buf` is NULL again on every request-line error, as in the source.
- ProxyParse.ParsedRequest.constructor: `port` is left unconstrained, as `ParsedRequest_create` never sets it.
- Requests.SplitHeader: two undefined corners of `ParsedHeader_parse` get defined values. When ':' is the last character, the value is empty; in C, `index1 += 2` steps past the NUL. When no CRLF follows the value, the value is the rest of the text; in C, `strndup(index1, NULL - index1)` is undefined.
- ProxyParse.ParsedRequest.PrintHeaders: requires a request line. Without one, `ParsedHeader_headersLen` is 0, so the length check in C cannot refuse any buffer. Only the callers that check `buf` first are modelled.
- ProxyParse.ParsedRequest.PrintRequestLine: requires a request line, for the same reason as PrintHeaders: its C length check reads `buf` too.
- ProxyServer.HandleRequestHeaders: the send length is stated as the intended one, line plus header block; the length the source computes is stated by ProxyServer.StrLenRunsPastHeaders (see Findings). The failure messages of the two sets and of the unparse are only printed in C and do not change the flow; they are not modelled.

## Findings

| source | as written | input that shows it | evidently intended | confidence | as-written member | corrected member |
|---|---|---|---|---|---|---|
| proxy_parse.c:284 | `version = full_addr + strlen(full_addr) + 1` is taken without checking that the target token was followed by a delimiter | the request line `GET http://h/p` (no version): the version pointer is one byte past the NUL of the copied line, so `strncmp` reads outside the allocation | a line whose target is its last token is refused for lack of a version | not executed | RequestLines.VersionPastTheCopy | RequestLines.VersionInsideTheLine, with RequestLines.RejectsMissingVersion |
| proxy_server_with_cache.c:133 | `send(remoteSocketID, buf, strlen(buf), 0)` after `ParsedHeader_printHeaders` (proxy_parse.c:107-127) has overwritten the NUL of `snprintf` without writing one of its own | any request with at least one header, in a fresh `malloc`'d `MAX_BYTES` buffer that holds no NUL: strlen counts all `MAX_BYTES` bytes and C reads beyond the buffer | send exactly the request line and the header block, `len + headersLen` bytes | not executed | ProxyServer.StrLenRunsPastHeaders | ProxyServer.HandleRequestHeaders, with ProxyServer.RequestBytesSent |
