/**
 * The C library string routines the proxy relies on, as functions on
 * `seq<char>`.  A C string is the sequence of characters before its
 * terminating NUL; every function here works on that sequence and says
 * outright which characters it inspects.
 */
module CStrings {
  import opened Wrappers

  /** A character sequence that can be held in a C string without being cut short. */
  predicate NoNul(s: string) {
    forall i :: 0 <= i < |s| ==> s[i] != '\0'
  }

  /** `s` does not contain `c` anywhere. */
  predicate Avoids(s: string, c: char) {
    forall i :: 0 <= i < |s| ==> s[i] != c
  }

  /** No character of `s` belongs to `d`. */
  predicate AvoidsAll(s: string, d: set<char>) {
    forall i :: 0 <= i < |s| ==> s[i] !in d
  }

  /** strspn: the length of the longest prefix of `s` made of characters of `d`. */
  function Span(s: string, d: set<char>): (n: nat)
    ensures n <= |s|
    ensures forall i :: 0 <= i < n ==> s[i] in d
    ensures n < |s| ==> s[n] !in d
  {
    if s == [] || s[0] !in d then 0 else 1 + Span(s[1..], d)
  }

  /** strcspn: the length of the longest prefix of `s` with no character of `d`. */
  function CSpan(s: string, d: set<char>): (n: nat)
    ensures n <= |s|
    ensures forall i :: 0 <= i < n ==> s[i] !in d
    ensures n < |s| ==> s[n] in d
  {
    if s == [] || s[0] in d then 0 else 1 + CSpan(s[1..], d)
  }

  /**
   * One step of strtok_r.  `NoToken` is the NULL result.  Otherwise `text` is
   * the token, `cut` says whether a delimiter ended it (strtok_r overwrites
   * that delimiter with NUL), and `rest` is where the saved pointer resumes:
   * just after the delimiter, or the empty string at the terminator.
   */
  datatype Token = NoToken | Token(text: string, rest: string, cut: bool)

  function StrTok(s: string, d: set<char>): (t: Token)
    ensures t.NoToken? <==> Span(s, d) == |s|
    ensures t.Token? ==>
      var i := Span(s, d);
      && t.text != []
      && i + |t.text| <= |s|
      && s[i..i + |t.text|] == t.text
      && AvoidsAll(t.text, d)
      && (t.cut <==> i + |t.text| < |s|)
      && (t.cut ==> s[i + |t.text|] in d && t.rest == s[i + |t.text| + 1..])
      && (!t.cut ==> t.rest == [])
  {
    var i := Span(s, d);
    var tail := s[i..];
    if tail == [] then NoToken
    else
      var n := CSpan(tail, d);
      if n == |tail| then Token(tail, [], false)
      else Token(tail[..n], tail[n + 1..], true)
  }

  /** `pat` occurs in `s` at position `j`. */
  predicate OccursAt(s: string, pat: string, j: nat) {
    j + |pat| <= |s| && s[j..j + |pat|] == pat
  }

  /** An occurrence inside a prefix is an occurrence in the whole. */
  lemma OccursInPrefix(s: string, pat: string, e: nat, j: nat)
    requires e <= |s| && OccursAt(s[..e], pat, j)
    ensures OccursAt(s, pat, j)
  {
    assert s[..e][j..j + |pat|] == s[j..j + |pat|];
  }

  /** strstr: the position of the first occurrence of `pat` in `s`. */
  function Find(s: string, pat: string): (r: Option<nat>)
    ensures r.Some? ==> r.value + |pat| <= |s|
  {
    if |s| < |pat| then None
    else if s[..|pat|] == pat then Some(0)
    else
      match Find(s[1..], pat)
      case None => None
      case Some(k) => Some(k + 1)
  }

  /** An occurrence past the first character is an occurrence in the rest. */
  lemma OccursShift(s: string, pat: string, j: nat)
    requires s != [] && j >= 1
    ensures OccursAt(s, pat, j) <==> OccursAt(s[1..], pat, j - 1)
  {
    if j + |pat| <= |s| {
      var a, b := s[j..j + |pat|], s[1..][j - 1..j - 1 + |pat|];
      forall k | 0 <= k < |pat|
        ensures a[k] == b[k]
      {
        assert a[k] == s[j + k];
        assert b[k] == s[1..][j - 1 + k];
      }
      assert a == b;
    }
  }

  /** strstr returns the first occurrence of the pattern, and NULL only when there is none. */
  lemma {:induction false} FindSpec(s: string, pat: string)
    ensures var r := Find(s, pat);
      && (r.Some? ==> OccursAt(s, pat, r.value))
      && (r.Some? ==> forall j: nat :: j < r.value ==> !OccursAt(s, pat, j))
      && (r.None? ==> forall j: nat :: !OccursAt(s, pat, j))
    decreases |s|
  {
    if |s| < |pat| {
      assert forall j: nat :: !OccursAt(s, pat, j);
    } else if s[..|pat|] == pat {
      assert s[0..|pat|] == s[..|pat|];
    } else {
      assert !OccursAt(s, pat, 0) by { assert s[0..|pat|] == s[..|pat|]; }
      FindSpec(s[1..], pat);
      forall j: nat | 1 <= j
        ensures OccursAt(s, pat, j) <==> OccursAt(s[1..], pat, j - 1)
      {
        OccursShift(s, pat, j);
      }
      match Find(s[1..], pat)
      case None =>
        assert Find(s, pat) == None;
      case Some(k) =>
        assert Find(s, pat) == Some(k + 1);
    }
  }

  /** strchr: the position of the first `c` in `s`. */
  function IndexOf(s: string, c: char): (r: Option<nat>)
    ensures r.Some? ==> r.value < |s|
  {
    if s == [] then None
    else if s[0] == c then Some(0)
    else
      match IndexOf(s[1..], c)
      case None => None
      case Some(k) => Some(k + 1)
  }

  /** strchr finds the first `c`, and NULL only when `s` has none. */
  lemma {:induction false} IndexOfSpec(s: string, c: char)
    ensures var r := IndexOf(s, c);
      && (r.Some? ==> s[r.value] == c && Avoids(s[..r.value], c))
      && (r.None? ==> Avoids(s, c))
    decreases |s|
  {
    if s != [] && s[0] != c {
      IndexOfSpec(s[1..], c);
      match IndexOf(s[1..], c)
      case None =>
      case Some(k) =>
        assert s[..k + 1] == [s[0]] + s[1..][..k];
    }
  }

  /** strchr stops at the first `c` after a stretch without one. */
  lemma {:induction false} IndexOfAfter(a: string, c: char, b: string)
    requires Avoids(a, c)
    ensures IndexOf(a + [c] + b, c) == Some(|a|)
    decreases |a|
  {
    if a != [] {
      assert (a + [c] + b)[1..] == a[1..] + [c] + b;
      IndexOfAfter(a[1..], c, b);
    }
  }

  /** strncmp(s, p, |p|) == 0 for a NUL-terminated `s`. */
  predicate HasPrefix(s: string, p: string) {
    |p| <= |s| && s[..|p|] == p
  }

  lemma PrefixTrans(s: string, t: string, u: string)
    requires HasPrefix(s, t) && HasPrefix(t, u)
    ensures HasPrefix(s, u)
  {
    assert s[..|u|] == s[..|t|][..|u|];
  }

  /** The C string that starts at offset `k` of the memory image `mem`. */
  function CStrAt(mem: string, k: nat): (r: string)
    requires k <= |mem|
    ensures NoNul(r) && k + |r| <= |mem| && r == mem[k..k + |r|]
    ensures k + |r| == |mem| || mem[k + |r|] == '\0'
  {
    IndexOfSpec(mem[k..], '\0');
    match IndexOf(mem[k..], '\0')
    case None => mem[k..]
    case Some(n) =>
      assert mem[k..][..n] == mem[k..k + n];
      mem[k..k + n]
  }

  // ---------------------------------------------------------------------
  // strtok_r on strings of a known shape

  lemma AvoidsAllConcat(a: string, b: string, d: set<char>)
    requires AvoidsAll(a, d) && AvoidsAll(b, d)
    ensures AvoidsAll(a + b, d)
  {
  }

  lemma NoNulConcat(a: string, b: string)
    requires NoNul(a) && NoNul(b)
    ensures NoNul(a + b)
  {
  }

  /** The C string at offset k runs up to the first NUL after it. */
  lemma CStrAtBefore(mem: string, k: nat, s: string, rest: string)
    requires k + |s| + 1 + |rest| == |mem|
    requires mem[k..] == s + ['\0'] + rest
    requires NoNul(s)
    ensures CStrAt(mem, k) == s
  {
    assert forall i :: 0 <= i < |s| ==> mem[k + i] == s[i];
    assert mem[k + |s|] == '\0';
  }

  lemma SpanNone(s: string, d: set<char>)
    requires s != [] && s[0] !in d
    ensures Span(s, d) == 0
  {
  }

  lemma {:induction false} CSpanWord(t: string, r: string, d: set<char>)
    requires AvoidsAll(t, d)
    requires r == [] || r[0] in d
    ensures CSpan(t + r, d) == |t|
  {
    if t != [] {
      assert (t + r)[1..] == t[1..] + r;
      CSpanWord(t[1..], r, d);
    } else {
      assert t + r == r;
    }
  }

  lemma {:induction false} SpanLead(lead: string, s: string, d: set<char>)
    requires forall i :: 0 <= i < |lead| ==> lead[i] in d
    requires s != [] && s[0] !in d
    ensures Span(lead + s, d) == |lead|
  {
    if lead != [] {
      assert (lead + s)[1..] == lead[1..] + s;
      SpanLead(lead[1..], s, d);
    } else {
      assert lead + s == s;
    }
  }

  /** A word followed by a delimiter: strtok_r returns the word and resumes after the delimiter. */
  lemma StrTokCut(t: string, c: char, r: string, d: set<char>)
    requires t != [] && AvoidsAll(t, d) && c in d
    ensures StrTok(t + [c] + r, d) == Token(t, r, true)
  {
    var s := t + [c] + r;
    assert s[0] == t[0];
    SpanNone(s, d);
    assert s == t + ([c] + r);
    CSpanWord(t, [c] + r, d);
    assert s[..|t|] == t;
    assert s[|t| + 1..] == r;
  }

  /** A word that runs to the terminator: strtok_r returns it and no delimiter is cut. */
  lemma StrTokWhole(t: string, d: set<char>)
    requires t != [] && AvoidsAll(t, d)
    ensures StrTok(t, d) == Token(t, [], false)
  {
    SpanNone(t, d);
    CSpanWord(t, [], d);
    assert t + [] == t;
  }

  /** Leading delimiters are skipped. */
  lemma StrTokSkip(lead: string, s: string, d: set<char>)
    requires forall i :: 0 <= i < |lead| ==> lead[i] in d
    requires s != [] && s[0] !in d
    ensures StrTok(lead + s, d) == StrTok(s, d)
  {
    SpanLead(lead, s, d);
    SpanNone(s, d);
    assert (lead + s)[|lead|..] == s;
  }

  /** Only delimiters (or nothing): strtok_r returns NULL. */
  lemma StrTokEmpty(d: set<char>)
    ensures StrTok([], d) == NoToken
  {
  }

  // ---------------------------------------------------------------------
  // atoi

  /** isspace in the C locale. */
  predicate IsSpace(c: char) {
    c == ' ' || c == '\t' || c == '\n' || c == '\U{B}' || c == '\U{C}' || c == '\r'
  }

  predicate IsDigit(c: char) {
    '0' <= c <= '9'
  }

  /** The value of a string of decimal digits, most significant first. */
  function DecimalValue(s: string): nat
    requires forall i :: 0 <= i < |s| ==> IsDigit(s[i])
  {
    if s == [] then 0
    else
      assert IsDigit(s[|s| - 1]);
      10 * DecimalValue(s[..|s| - 1]) + (s[|s| - 1] as int - '0' as int)
  }

  /** Length of the run of decimal digits at the start of `s`. */
  function DigitRun(s: string): (n: nat)
    ensures n <= |s|
    ensures forall i :: 0 <= i < n ==> IsDigit(s[i])
    ensures n < |s| ==> !IsDigit(s[n])
  {
    if s == [] || !IsDigit(s[0]) then 0 else 1 + DigitRun(s[1..])
  }

  /** Length of the run of white space at the start of `s`. */
  function SpaceRun(s: string): (n: nat)
    ensures n <= |s|
    ensures n < |s| ==> !IsSpace(s[n])
  {
    if s == [] || !IsSpace(s[0]) then 0 else 1 + SpaceRun(s[1..])
  }

  /** INT_MIN and INT_MAX of a 32-bit `int`. */
  const IntMin: int := -0x8000_0000
  const IntMax: int := 0x7fff_ffff

  /** LONG_MIN and LONG_MAX of a 64-bit `long`. */
  const LongMin: int := -0x8000_0000_0000_0000
  const LongMax: int := 0x7fff_ffff_ffff_ffff

  /**
   * The number at the start of `s` in base 10, without any bound: skip white
   * space, read an optional sign, then the longest run of decimal digits;
   * anything else ends the number, and no digits means 0.
   */
  function LeadingInteger(s: string): int {
    var t := s[SpaceRun(s)..];
    var neg := t != [] && t[0] == '-';
    var u := if t != [] && (t[0] == '-' || t[0] == '+') then t[1..] else t;
    var v: int := DecimalValue(u[..DigitRun(u)]);
    if neg then -v else v
  }

  /** strtol(s, NULL, 10): the leading integer, or LONG_MIN / LONG_MAX when it does not fit a `long`. */
  function StrToL(s: string): (r: int)
    ensures LongMin <= r <= LongMax
    ensures LongMin <= LeadingInteger(s) <= LongMax ==> r == LeadingInteger(s)
  {
    var v := LeadingInteger(s);
    if v < LongMin then LongMin else if v > LongMax then LongMax else v
  }

  /**
   * atoi as glibc defines it, `(int) strtol(s, NULL, 10)`: the `long` is
   * converted to a 32-bit `int` by keeping its low 32 bits.  The C standard
   * leaves the result undefined when the number does not fit an `int`.
   */
  function Atoi(s: string): (r: int)
    ensures IntMin <= r <= IntMax
    ensures IntMin <= LeadingInteger(s) <= IntMax ==> r == LeadingInteger(s)
  {
    var w := StrToL(s) % 0x1_0000_0000;
    if w > IntMax then w - 0x1_0000_0000 else w
  }

  /** The decimal numeral of `n`, as printed by "%d". */
  function DecimalString(n: nat): (s: string)
    ensures s != [] && forall i :: 0 <= i < |s| ==> IsDigit(s[i])
  {
    var last := ['0' + (n % 10) as char];
    if n < 10 then last else DecimalString(n / 10) + last
  }

  lemma {:induction false} DecimalValueOfString(n: nat)
    ensures DecimalValue(DecimalString(n)) == n
  {
    var s := DecimalString(n);
    if n >= 10 {
      DecimalValueOfString(n / 10);
      assert s[..|s| - 1] == DecimalString(n / 10);
    }
  }

  /** atoi reads back every numeral that "%d" prints for an `int` that is not negative. */
  lemma AtoiOfDecimal(n: nat)
    requires n <= IntMax
    ensures Atoi(DecimalString(n)) == n
  {
    LeadingIntegerOfDecimal(n);
  }

  /**
   * Past INT_MAX only the low 32 bits survive: a numeral from 2^32 up to
   * 2^32 + INT_MAX reads as its value less 2^32, so "4294967376" reads as 80.
   */
  lemma AtoiKeepsLowBits(n: nat)
    requires 0x1_0000_0000 <= n <= 0x1_0000_0000 + IntMax
    ensures Atoi(DecimalString(n)) == n - 0x1_0000_0000
  {
    LeadingIntegerOfDecimal(n);
  }

  /** The leading integer of the numeral of `n` is `n`. */
  lemma LeadingIntegerOfDecimal(n: nat)
    ensures LeadingInteger(DecimalString(n)) == n
  {
    var s := DecimalString(n);
    assert SpaceRun(s) == 0 by { assert !IsSpace(s[0]); }
    assert s[0..] == s;
    DigitRunAll(s);
    assert s[..|s|] == s;
    DecimalValueOfString(n);
  }

  lemma {:induction false} DigitRunAll(s: string)
    requires forall i :: 0 <= i < |s| ==> IsDigit(s[i])
    ensures DigitRun(s) == |s|
  {
    if s != [] {
      DigitRunAll(s[1..]);
    }
  }

  // ---------------------------------------------------------------------
  // strstr on strings of a known shape

  /** strstr finds an occurrence that no earlier occurrence precedes. */
  lemma FindAt(s: string, pat: string, j: nat)
    requires OccursAt(s, pat, j)
    requires forall i: nat :: i < j ==> !OccursAt(s, pat, i)
    ensures Find(s, pat) == Some(j)
  {
    FindSpec(s, pat);
  }

  /** strstr(s, "\r\n") stops at the first CRLF of a line without a carriage return. */
  lemma CrLfAfter(a: string, b: string)
    requires Avoids(a, '\r')
    ensures Find(a + "\r\n" + b, "\r\n") == Some(|a|)
  {
    var s := a + "\r\n" + b;
    assert s[|a|..|a| + 2] == "\r\n";
    forall i: nat | i < |a|
      ensures !OccursAt(s, "\r\n", i)
    {
      assert s[i] == a[i];
      assert s[i..i + 2][0] == s[i];
    }
    FindAt(s, "\r\n", |a|);
  }

  /** Concatenation is associative (stated once, so that proofs need not rediscover it). */
  lemma ConcatAssoc<T>(a: seq<T>, b: seq<T>, c: seq<T>)
    ensures (a + b) + c == a + (b + c)
  {
  }

  /** A string without NUL is read back whole as a C string. */
  lemma CStrAtWhole(s: string)
    requires NoNul(s)
    ensures CStrAt(s, 0) == s
  {
  }

  /** A C string read from memory where `t` is followed by a NUL is `t`. */
  lemma CStrAtTerminated(mem: string, t: string)
    requires NoNul(t) && |t| < |mem| && mem[..|t|] == t && mem[|t|] == '\0'
    ensures CStrAt(mem, 0) == t
  {
    var r := CStrAt(mem, 0);
    assert forall i :: 0 <= i < |t| ==> mem[i] == t[i];
    assert forall i :: 0 <= i < |r| ==> r[i] == mem[i];
    assert |r| == |t|;
    assert r == mem[..|r|];
  }

  // ---------------------------------------------------------------------
  // memcpy

  /** The memory `mem` after memcpy(mem + at, src, |src|). */
  function Overwrite(mem: string, at: nat, src: string): (r: string)
    requires at + |src| <= |mem|
    ensures |r| == |mem|
  {
    mem[..at] + src + mem[at + |src|..]
  }

  /** memcpy writes `src` at `at` and leaves every other byte alone. */
  lemma OverwriteSpec(mem: string, at: nat, src: string)
    requires at + |src| <= |mem|
    ensures Overwrite(mem, at, src)[at..at + |src|] == src
    ensures forall i :: 0 <= i < |mem| && !(at <= i < at + |src|) ==> Overwrite(mem, at, src)[i] == mem[i]
  {
  }

  /** Writing one character is an update of the memory at that offset. */
  lemma OverwriteOne(mem: string, at: nat, c: char)
    requires at < |mem|
    ensures Overwrite(mem, at, [c]) == mem[at := c]
  {
    OverwriteSpec(mem, at, [c]);
    assert Overwrite(mem, at, [c])[at] == Overwrite(mem, at, [c])[at..at + 1][0];
  }

  /** Two memcpy calls to adjacent ranges write their concatenation. */
  lemma OverwriteAppend(mem: string, at: nat, a: string, b: string)
    requires at + |a| + |b| <= |mem|
    ensures Overwrite(Overwrite(mem, at, a), at + |a|, b) == Overwrite(mem, at, a + b)
  {
    var x := Overwrite(mem, at, a);
    assert x[..at + |a|] == mem[..at] + a;
    assert x[at + |a| + |b|..] == mem[at + |a| + |b|..];
    assert (mem[..at] + a) + b == mem[..at] + (a + b);
  }

  /** Writing nothing changes nothing. */
  lemma OverwriteNothing(mem: string, at: nat)
    requires at <= |mem|
    ensures Overwrite(mem, at, "") == mem
  {
    assert mem[..at] + "" + mem[at..] == mem;
  }

  /**
   * The same bytes, named twice, write the same memory.  A proof step only:
   * it lets a caller swap one spelling of the bytes for another without the
   * verifier comparing the two memory images itself.
   */
  lemma OverwriteSame(d: string, mem: string, at: nat, a: string, b: string)
    requires at + |a| <= |mem| && a == b && d == Overwrite(mem, at, a)
    ensures d == Overwrite(mem, at, b)
  {
  }

  /** One more byte copied by memcpy. */
  lemma MemCpyStep(d: string, before: string, mem: string, at: nat, src: string, i: nat)
    requires i < |src| && at + |src| <= |mem|
    requires before == Overwrite(mem, at, src[..i])
    requires d == before[at + i := src[i]]
    ensures d == Overwrite(mem, at, src[..i + 1])
  {
    OverwriteOne(before, at + i, src[i]);
    OverwriteAppend(mem, at, src[..i], [src[i]]);
    assert src[..i] + [src[i]] == src[..i + 1];
  }

  /** memcpy(dst + at, src, |src|). */
  method MemCpy(dst: array<char>, at: nat, src: string)
    requires at + |src| <= dst.Length
    modifies dst
    ensures dst[..] == Overwrite(old(dst[..]), at, src)
  {
    var i := 0;
    while i < |src|
      invariant 0 <= i <= |src|
      invariant dst[..] == Overwrite(old(dst[..]), at, src[..i])
    {
      ghost var before := dst[..];
      dst[at + i] := src[i];
      assert dst[..] == before[at + i := src[i]];
      MemCpyStep(dst[..], before, old(dst[..]), at, src, i);
      i := i + 1;
    }
    assert src[..i] == src;
  }
}
