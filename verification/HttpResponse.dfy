/**
 The HTTP/1.1 response parser of src/http_response_parser.c: the verdict on a buffer, what the
 header lines mean for it, and the parser that works on the buffer.
 */
module HttpResponse {
  import opened Common
  import opened HttpChunked

  const SP: byte := 32
  /** OTLP_RETRY_AFTER_MAX_S */
  const RETRY_AFTER_MAX_S: nat := 4294967

  /** Printable ASCII without blanks. */
  predicate IsAscii(s: string) { forall i :: 0 <= i < |s| ==> 32 as char < s[i] < 127 as char }

  function Ascii(s: string): (b: Bytes)
    requires IsAscii(s)
    ensures |b| == |s| && forall i :: 0 <= i < |s| ==> b[i] == s[i] as int && b[i] > SP
  {
    seq(|s|, i requires 0 <= i < |s| => s[i] as int)
  }

  const HTTP: Bytes := Ascii("HTTP/")
  const CONTENT_LENGTH: Bytes := Ascii("content-length:")
  const TRANSFER_ENCODING: Bytes := Ascii("transfer-encoding:")
  const RETRY_AFTER: Bytes := Ascii("retry-after:")
  const CONNECTION: Bytes := Ascii("connection:")
  const CHUNKED: Bytes := Ascii("chunked")
  const CLOSE: Bytes := Ascii("close")
  const KEEP_ALIVE: Bytes := Ascii("keep-alive")

  // ---------------------------------------------------------------- header values

  /** Does the line start with the lower-case text `lit`, in any case? */
  predicate Starts(l: Bytes, lit: Bytes) {
    |lit| <= |l| && forall j :: 0 <= j < |lit| ==> Lower(l[j]) == lit[j]
  }

  predicate IsDigit(c: byte) { 48 <= c <= 57 }

  function Digit(c: byte): (d: nat)
    requires IsDigit(c)
    ensures d < 10
  {
    c - 48
  }

  function SkipSpaces(l: Bytes, i: nat): (k: nat)
    requires i <= |l|
    ensures i <= k <= |l| && (forall j :: i <= j < k ==> l[j] == SP) && (k < |l| ==> l[k] != SP)
    decreases |l| - i
  {
    if i < |l| && l[i] == SP then SkipSpaces(l, i + 1) else i
  }

  /** The digits from `i` on, after digits worth `acc`; None when they pass the cap. */
  function ReadLength(l: Bytes, i: nat, acc: nat): Option<nat>
    requires i <= |l|
    decreases |l| - i
  {
    if i < |l| && IsDigit(l[i]) then
      var acc' := acc * 10 + Digit(l[i]);
      if acc' > RESP_MAX then None else ReadLength(l, i + 1, acc')
    else Some(acc)
  }

  /** The digits from `i` on, at most `room` of them, after digits worth `acc`. */
  function ReadSeconds(l: Bytes, i: nat, room: nat, acc: nat): nat
    requires i <= |l|
    decreases |l| - i
  {
    if i < |l| && IsDigit(l[i]) && room > 0 then
      ReadSeconds(l, i + 1, room - 1, acc * 10 + Digit(l[i]))
    else acc
  }

  function LengthValue(l: Bytes): Option<nat>
    requires Starts(l, CONTENT_LENGTH)
  {
    ReadLength(l, SkipSpaces(l, 15), 0)
  }

  predicate ChunkedValue(l: Bytes)
    requires Starts(l, TRANSFER_ENCODING)
  {
    var v := SkipSpaces(l, 18);
    |l| - v == 7 && Starts(l[v..], CHUNKED)
  }

  /** Retry-After in milliseconds, saturated; 0 when it is not a number of seconds. */
  function RetryValue(l: Bytes): (ms: nat)
    requires Starts(l, RETRY_AFTER)
    ensures ms < UINT32_RANGE
  {
    Min(ReadSeconds(l, SkipSpaces(l, 12), 10, 0), RETRY_AFTER_MAX_S) * 1000
  }

  function ConnectionValue(l: Bytes, was: bool): bool
    requires Starts(l, CONNECTION)
  {
    var v := SkipSpaces(l, 11);
    if Starts(l[v..], CLOSE) then false
    else if Starts(l[v..], KEEP_ALIVE) then true
    else was
  }

  // ---------------------------------------------------------------- header block

  datatype Head = Head(
    length: Option<nat>, te: bool, chunked: bool, retryMs: nat, keepalive: bool)

  /** One header line; None when it makes the response malformed. */
  function Step(st: Head, l: Bytes): Option<Head> {
    if Starts(l, CONTENT_LENGTH) then
      match LengthValue(l)
      case None => None
      case Some(v) =>
        if st.length.Some? && st.length.value != v then None
        else Some(st.(length := Some(v)))
    else if Starts(l, TRANSFER_ENCODING) then
      Some(st.(te := true, chunked := st.chunked || ChunkedValue(l)))
    else if Starts(l, RETRY_AFTER) then Some(st.(retryMs := RetryValue(l)))
    else if Starts(l, CONNECTION) then Some(st.(keepalive := ConnectionValue(l, st.keepalive)))
    else Some(st)
  }

  /** The header scan from `i` on: lines end at a CR, and the byte after it is skipped. */
  function Scan(h: Bytes, i: nat, st: Head): Option<Head>
    decreases |h| - i
  {
    if i >= |h| then Some(st)
    else
      var eol := IndexOf(h, CR, i);
      if eol >= |h| then None
      else
        match Step(st, h[i..eol])
        case None => None
        case Some(st') => Scan(h, eol + 2, st')
  }

  datatype StatusLine = NoStatus | Status(code: nat, keepalive: bool)

  /** The status of the first `off` bytes; the code is searched after the first space of them. */
  function ReadStatus(s: Bytes, off: nat): (r: StatusLine)
    requires off <= |s|
    ensures r.Status? ==> r.code < 1000
  {
    if |s| < 12 || s[..5] != HTTP || off < 5 then NoStatus
    else
      var p := IndexOf(s[..off], SP, 5);
      if p >= off || p + 4 > off then NoStatus
      else if !(IsDigit(s[p + 1]) && IsDigit(s[p + 2]) && IsDigit(s[p + 3])) then NoStatus
      else
        Status(Digit(s[p + 1]) * 100 + Digit(s[p + 2]) * 10 + Digit(s[p + 3]),
               s[5] == 49 && s[6] == 46 && s[7] >= 49)
  }

  datatype Verdict =
    | Incomplete
    | Bad
    | Complete(status: nat, retryMs: nat, keepalive: bool, body: Bytes)

  /** The body, once the header block is read. */
  function Judge(code: nat, st: Head, rest: Bytes, atEof: bool): Verdict {
    if st.te then
      if st.length.Some? || !st.chunked then Bad
      else
        match Decode(rest, 0)
        case NeedMore => Incomplete
        case Malformed => Bad
        case Decoded(data) => Complete(code, st.retryMs, st.keepalive, data)
    else if st.length.Some? then
      if |rest| < st.length.value then Incomplete
      else Complete(code, st.retryMs, st.keepalive, rest[..st.length.value])
    else if !atEof then Incomplete
    else Complete(code, st.retryMs, false, rest)
  }

  function NoHeadYet(keepalive: bool): Head { Head(None, false, false, 0, keepalive) }

  /** The first `off` bytes are the status line and the header lines with their blank line. */
  function ParseFrom(s: Bytes, off: nat, atEof: bool): Verdict
    requires off <= |s|
  {
    match ReadStatus(s, off)
    case NoStatus => Bad
    case Status(code, keepalive) =>
      var lf := IndexOf(s[..off], LF, 0);
      if lf >= off then Bad
      else
        match Scan(s[..off], lf + 1, NoHeadYet(keepalive))
        case None => Bad
        case Some(st) => Judge(code, st, s[off..], atEof)
  }

  function Parse(s: Bytes, atEof: bool): Verdict {
    var k := BlankLine(s, 0);
    if k == |s| then Incomplete else ParseFrom(s, k + 4, atEof)
  }

  // ---------------------------------------------------------------- stability

  /** A header block that ends within the first twelve bytes holds no status. */
  lemma ShortIsBad(s: Bytes, k: nat)
    requires IsBlank(s, k) && k + 4 <= 12
    ensures ReadStatus(s, k + 4) == NoStatus
  {
    var off := k + 4;
    if |s| >= 12 && s[..5] == HTTP && off >= 5 {
      var p := IndexOf(s[..off], SP, 5);
      assert p + 4 <= off ==> s[p + 3] == CR || s[p + 3] == LF;
    }
  }

  lemma ReadStatusExtends(s: Bytes, t: Bytes, k: nat)
    requires IsBlank(s, k)
    ensures ReadStatus(s + t, k + 4) == ReadStatus(s, k + 4)
  {
    assert (s + t)[..k + 4] == s[..k + 4];
    if |s| < 12 {
      assert IsBlank(s + t, k);
      ShortIsBad(s + t, k);
    } else {
      assert (s + t)[..5] == s[..5];
    }
  }

  lemma JudgeExtends(code: nat, st: Head, rest: Bytes, t: Bytes, e: bool, e': bool)
    ensures var v := Judge(code, st, rest, e);
      v.Bad? || (v.Complete? && !e) ==> Judge(code, st, rest + t, e') == v
  {
    hide Decode;
    DecodeExtends(rest, t, 0);
    if st.length.Some? && |rest| >= st.length.value {
      assert (rest + t)[..st.length.value] == rest[..st.length.value];
    }
  }

  /**
   More bytes never change a verdict: what is complete before the end of the stream stays
   complete with the same status, retry time and body, and what is malformed stays malformed.
   */
  lemma VerdictIsStable(s: Bytes, t: Bytes, e: bool, e': bool)
    ensures var v := Parse(s, e);
      v.Bad? || (v.Complete? && !e) ==> Parse(s + t, e') == v
  {
    hide ReadStatus, Scan, Judge;
    BlankLineExtends(s, t, 0);
    var k := BlankLine(s, 0);
    if k < |s| {
      var off := k + 4;
      ReadStatusExtends(s, t, k);
      assert (s + t)[..off] == s[..off];
      assert (s + t)[off..] == s[off..] + t;
      var r := ReadStatus(s, off);
      if r.Status? {
        var lf := IndexOf(s[..off], LF, 0);
        if lf < off {
          var st := Scan(s[..off], lf + 1, NoHeadYet(r.keepalive));
          if st.Some? { JudgeExtends(r.code, st.value, s[off..], t, e, e'); }
        }
      }
    }
  }

  /** Arriving at the end of the stream can only complete a response without a length. */
  lemma {:induction false} EofOnlyCompletes(s: Bytes)
    ensures !Parse(s, false).Incomplete? ==> Parse(s, true) == Parse(s, false)
  {
    VerdictIsStable(s, [], false, true);
    assert s + [] == s;
  }

  // ---------------------------------------------------------------- what header lines mean

  /** The lines in order, each read on top of those before it. */
  function Fold(st0: Head, lines: seq<Bytes>): Option<Head> {
    if lines == [] then Some(st0)
    else
      match Fold(st0, lines[..|lines| - 1])
      case None => None
      case Some(st) => Step(st, lines[|lines| - 1])
  }

  predicate IsLength(l: Bytes) { Starts(l, CONTENT_LENGTH) }
  predicate IsEncoding(l: Bytes) { Starts(l, TRANSFER_ENCODING) }
  predicate IsChunked(l: Bytes) { IsEncoding(l) && ChunkedValue(l) }

  /** Every Content-Length line is within the cap, and they agree. */
  predicate LengthsAgree(lines: seq<Bytes>) {
    (forall i :: 0 <= i < |lines| && IsLength(lines[i]) ==> LengthValue(lines[i]).Some?) &&
    (forall i, j :: 0 <= i < |lines| && 0 <= j < |lines| && IsLength(lines[i]) && IsLength(lines[j])
      ==> LengthValue(lines[i]) == LengthValue(lines[j]))
  }

  /** The last Retry-After line counts. */
  function LastRetry(lines: seq<Bytes>): nat {
    if lines == [] then 0
    else if Starts(lines[|lines| - 1], RETRY_AFTER) then RetryValue(lines[|lines| - 1])
    else LastRetry(lines[..|lines| - 1])
  }

  /** The last Connection line that says close or keep-alive counts, else the version. */
  function LastConnection(lines: seq<Bytes>, default: bool): bool {
    if lines == [] then default
    else
      var was := LastConnection(lines[..|lines| - 1], default);
      var l := lines[|lines| - 1];
      if Starts(l, CONNECTION) then ConnectionValue(l, was) else was
  }

  /** No line has two of the header names. */
  lemma NamesDiffer(l: Bytes)
    ensures IsEncoding(l) ==> !IsLength(l)
    ensures Starts(l, RETRY_AFTER) ==> !IsLength(l) && !IsEncoding(l)
    ensures Starts(l, CONNECTION) ==> !IsLength(l) && !IsEncoding(l) && !Starts(l, RETRY_AFTER)
  {
    assert CONTENT_LENGTH[0] == 99 && CONTENT_LENGTH[3] == 116;
    assert TRANSFER_ENCODING[0] == 116 && RETRY_AFTER[0] == 114;
    assert CONNECTION[0] == 99 && CONNECTION[3] == 110;
  }

  ghost predicate HeadMeans(st: Head, lines: seq<Bytes>, keepalive: bool) {
    (forall i :: 0 <= i < |lines| && IsLength(lines[i]) ==> st.length == LengthValue(lines[i])) &&
    (st.length.Some? ==> exists i :: 0 <= i < |lines| && IsLength(lines[i])) &&
    (st.te <==> exists i :: 0 <= i < |lines| && IsEncoding(lines[i])) &&
    (st.chunked <==> exists i :: 0 <= i < |lines| && IsChunked(lines[i])) &&
    st.retryMs == LastRetry(lines) && st.keepalive == LastConnection(lines, keepalive)
  }

  /** The scan succeeds exactly when the lengths agree, and collects what the lines say. */
  lemma {:induction false} FoldMeans(lines: seq<Bytes>, keepalive: bool)
    ensures var r := Fold(NoHeadYet(keepalive), lines);
      (r.Some? <==> LengthsAgree(lines)) && (r.Some? ==> HeadMeans(r.value, lines, keepalive))
  {
    if lines != [] {
      var init, l := lines[..|lines| - 1], lines[|lines| - 1];
      FoldMeans(init, keepalive);
      assert lines == init + [l];
      var r := Fold(NoHeadYet(keepalive), init);
      if r.Some? {
        StepMeans(r.value, init, l, keepalive);
      } else {
        AgreeInit(init, l);
      }
    }
  }

  lemma AgreeInit(init: seq<Bytes>, l: Bytes)
    ensures LengthsAgree(init + [l]) ==> LengthsAgree(init)
  {
    var lines := init + [l];
    assert forall i :: 0 <= i < |init| ==> init[i] == lines[i];
  }

  lemma StepMeans(st: Head, init: seq<Bytes>, l: Bytes, keepalive: bool)
    requires LengthsAgree(init) && HeadMeans(st, init, keepalive)
    ensures var r := Step(st, l);
      (r.Some? <==> LengthsAgree(init + [l])) &&
      (r.Some? ==> HeadMeans(r.value, init + [l], keepalive))
  {
    hide LengthValue, ChunkedValue, ConnectionValue, RetryValue, Starts;
    NamesDiffer(l);
    var lines := init + [l];
    assert forall i :: 0 <= i < |init| ==> lines[i] == init[i];
    assert lines[|init|] == l && lines[..|lines| - 1] == init;
  }

  // ---------------------------------------------------------------- the lines of a block

  /** The header lines from `i` on. */
  function Lines(h: Bytes, i: nat): (r: seq<Bytes>)
    decreases |h| - i
  {
    if i >= |h| then []
    else
      var eol := IndexOf(h, CR, i);
      if eol >= |h| then [] else [h[i..eol]] + Lines(h, eol + 2)
  }

  lemma {:induction false} FoldStops(st0: Head, pre: seq<Bytes>, more: seq<Bytes>)
    requires Fold(st0, pre) == None
    ensures Fold(st0, pre + more) == None
    decreases |more|
  {
    if more == [] {
      assert pre + more == pre;
    } else {
      var n := |more| - 1;
      assert (pre + more)[..|pre + more| - 1] == pre + more[..n];
      FoldStops(st0, pre, more[..n]);
    }
  }

  lemma FoldNext(st0: Head, pre: seq<Bytes>, l: Bytes, st: Head)
    requires Fold(st0, pre) == Some(st)
    ensures Fold(st0, pre + [l]) == Step(st, l)
  {
    hide Step;
    assert (pre + [l])[..|pre|] == pre;
  }

  /** In a block that ends in a blank line the scan reads line after line to the end. */
  lemma {:induction false} ScanIsFold(h: Bytes, i: nat, st0: Head, pre: seq<Bytes>, st: Head)
    requires |h| >= 4 && IsBlank(h, |h| - 4) && (i + 2 <= |h| || i == |h|)
    requires Fold(st0, pre) == Some(st)
    ensures Scan(h, i, st) == Fold(st0, pre + Lines(h, i))
    decreases |h| - i
  {
    hide Step, IndexOf, Fold;
    if i < |h| {
      var eol := IndexOf(h, CR, i);
      assert eol + 2 <= |h| && eol + 3 != |h|;
      var l := h[i..eol];
      var pre' := pre + [l];
      FoldNext(st0, pre, l, st);
      assert pre + Lines(h, i) == pre' + Lines(h, eol + 2);
      if Step(st, l).None? {
        FoldStops(st0, pre', Lines(h, eol + 2));
      } else {
        ScanIsFold(h, eol + 2, st0, pre', Step(st, l).value);
      }
    } else {
      assert pre + Lines(h, i) == pre;
    }
  }

  /** The header lines of a buffer whose header block is complete. */
  function HeaderLines(s: Bytes): seq<Bytes>
    requires BlankLine(s, 0) < |s|
  {
    var h := s[..BlankLine(s, 0) + 4];
    Lines(h, IndexOf(h, LF, 0) + 1)
  }

  lemma ScanReadsLines(s: Bytes, keepalive: bool)
    requires BlankLine(s, 0) < |s|
    ensures var h := s[..BlankLine(s, 0) + 4];
      IndexOf(h, LF, 0) < |h| &&
      Scan(h, IndexOf(h, LF, 0) + 1, NoHeadYet(keepalive)) ==
        Fold(NoHeadYet(keepalive), HeaderLines(s))
  {
    var k := BlankLine(s, 0);
    var h := s[..k + 4];
    assert IsBlank(h, k) && h[k + 1] == LF;
    var lf := IndexOf(h, LF, 0);
    assert lf <= k + 1;
    ScanIsFold(h, lf + 1, NoHeadYet(keepalive), [], NoHeadYet(keepalive));
    assert [] + HeaderLines(s) == HeaderLines(s);
  }

  predicate AnyLength(lines: seq<Bytes>) { exists i :: 0 <= i < |lines| && IsLength(lines[i]) }
  predicate AnyEncoding(lines: seq<Bytes>) { exists i :: 0 <= i < |lines| && IsEncoding(lines[i]) }
  predicate AnyChunked(lines: seq<Bytes>) { exists i :: 0 <= i < |lines| && IsChunked(lines[i]) }

  /** The framing headers are refused: they contradict each other or name an unknown coding. */
  predicate RefusedFraming(lines: seq<Bytes>) {
    !LengthsAgree(lines) || (AnyEncoding(lines) && (AnyLength(lines) || !AnyChunked(lines)))
  }

  lemma FoldSomeMeans(st: Head, lines: seq<Bytes>, keepalive: bool)
    requires Fold(NoHeadYet(keepalive), lines) == Some(st)
    ensures LengthsAgree(lines) && HeadMeans(st, lines, keepalive)
    ensures st.length.Some? <==> AnyLength(lines)
  {
    FoldMeans(lines, keepalive);
    if i :| 0 <= i < |lines| && IsLength(lines[i]) {
      assert LengthValue(lines[i]).Some?;
    }
  }

  lemma FoldSomeIs(st: Head, lines: seq<Bytes>, keepalive: bool)
    requires Fold(NoHeadYet(keepalive), lines) == Some(st)
    ensures LengthsAgree(lines) && (st.length.Some? <==> AnyLength(lines))
    ensures (st.te <==> AnyEncoding(lines)) && (st.chunked <==> AnyChunked(lines))
  {
    hide Fold, LengthsAgree, IsLength, IsEncoding, IsChunked, LastRetry, LastConnection;
    FoldSomeMeans(st, lines, keepalive);
  }

  /** Malformed: no status, refused framing headers, or malformed chunks; nothing else. */
  lemma MalformedIff(s: Bytes, e: bool)
    requires BlankLine(s, 0) < |s|
    ensures var off := BlankLine(s, 0) + 4;
      Parse(s, e).Bad? <==>
        ReadStatus(s, off).NoStatus? || RefusedFraming(HeaderLines(s)) ||
        (AnyEncoding(HeaderLines(s)) && Decode(s[off..], 0).Malformed?)
  {
    hide ReadStatus, Scan, Decode, Fold, LengthsAgree, HeaderLines, AnyLength, AnyEncoding,
      AnyChunked;
    var off := BlankLine(s, 0) + 4;
    var r := ReadStatus(s, off);
    var lines := HeaderLines(s);
    if r.Status? {
      ScanReadsLines(s, r.keepalive);
      FoldIs(lines, r.keepalive);
    }
  }

  lemma FoldIs(lines: seq<Bytes>, keepalive: bool)
    ensures var st := Fold(NoHeadYet(keepalive), lines);
      (st.None? <==> !LengthsAgree(lines)) &&
      (st.Some? ==>
        (st.value.length.Some? <==> AnyLength(lines)) && (st.value.te <==> AnyEncoding(lines)) &&
        (st.value.chunked <==> AnyChunked(lines)))
  {
    hide Fold, LengthsAgree, AnyLength, AnyEncoding, AnyChunked, HeadMeans;
    FoldMeans(lines, keepalive);
    var st := Fold(NoHeadYet(keepalive), lines);
    if st.Some? { FoldSomeIs(st.value, lines, keepalive); }
  }

  // ---------------------------------------------------------------- a rendered response

  predicate PlainLine(l: Bytes) { l != [] && CR !in l }

  predicate PlainLines(lines: seq<Bytes>) { forall i :: 0 <= i < |lines| ==> PlainLine(lines[i]) }

  function Block(lines: seq<Bytes>): Bytes {
    if lines == [] then [] else lines[0] + CRLF + Block(lines[1..])
  }

  /** Status line, header lines, blank line, body. */
  function Render(status: Bytes, lines: seq<Bytes>, body: Bytes): Bytes {
    Block([status] + lines) + CRLF + body
  }

  /** The line `l` stands at `i`, followed by CRLF and by `after`. */
  lemma LineAt(h: Bytes, i: nat, l: Bytes, after: Bytes)
    requires i <= |h| && h[i..] == l + CRLF + after && CR !in l
    ensures i + |l| + 2 <= |h| && h[i + |l| + 2..] == after && h[i..i + |l|] == l
    ensures h[i + |l|] == CR && h[i + |l| + 1] == LF
    ensures IndexOf(h, CR, i) == i + |l|
  {
    var e := i + |l|;
    assert forall j :: 0 <= j < |l| ==> h[i + j] == h[i..][j] == l[j];
    assert h[e] == h[i..][|l|] && h[e + 1] == h[i..][|l| + 1];
    assert forall j :: i <= j < e ==> h[j] == l[j - i];
    IndexOfIs(h, CR, i, e);
  }

  /** The line `l` holds no blank line; behind it stands one, or the next line. */
  lemma BlankAfterLine(h: Bytes, i: nat, l: Bytes, after: Bytes)
    requires i <= |h| && h[i..] == l + CRLF + after && CR !in l && after != []
    ensures i + |l| + 2 <= |h| && h[i + |l| + 2..] == after
    ensures CRLF <= after ==> BlankLine(h, i) == i + |l|
    ensures after[0] != CR ==> BlankLine(h, i) == BlankLine(h, i + |l| + 2)
  {
    hide IndexOf, BlankLine;
    LineAt(h, i, l, after);
    var e := i + |l|;
    assert forall j :: i <= j < e ==> h[j] == h[i..e][j - i] == l[j - i] != CR;
    assert after[0] == h[e + 2];
    if CRLF <= after {
      assert h[e + 3] == after[1] == LF;
      SkipToBlank(h, i, e);
      assert IsBlank(h, e);
      BlankHere(h, e);
    } else if after[0] != CR {
      SkipToBlank(h, i, e + 2);
    }
  }

  lemma BlankHere(h: Bytes, k: nat)
    requires IsBlank(h, k)
    ensures BlankLine(h, k) == k
  {
  }

  /** The first blank line of a rendered block is the one at its end. */
  lemma {:induction false} BlankAtEnd(h: Bytes, i: nat, lines: seq<Bytes>, rest: Bytes)
    requires i <= |h| && PlainLines(lines) && lines != []
    requires h[i..] == Block(lines) + CRLF + rest
    ensures BlankLine(h, i) + 4 == i + |Block(lines)| + 2 <= |h|
    decreases |lines|
  {
    hide IndexOf, BlankLine;
    var l, more := lines[0], lines[1..];
    var after := Block(more) + CRLF + rest;
    assert PlainLine(l) && PlainLines(more);
    assert h[i..] == l + CRLF + after;
    BlankAfterLine(h, i, l, after);
    if more == [] {
      assert after == CRLF + rest;
    } else {
      assert PlainLine(more[0]) && after[0] == more[0][0];
      BlankAtEnd(h, i + |l| + 2, more, rest);
    }
  }

  /** No blank line starts before `k`. */
  lemma {:induction false} SkipToBlank(h: Bytes, i: nat, k: nat)
    requires i <= k <= |h| && forall j :: i <= j < k ==> !IsBlank(h, j)
    ensures BlankLine(h, i) == BlankLine(h, k)
    decreases k - i
  {
    if i < k { SkipToBlank(h, i + 1, k); }
  }

  lemma LinesNext(h: Bytes, i: nat, e: nat)
    requires i <= |h| && IndexOf(h, CR, i) == e < |h|
    ensures Lines(h, i) == [h[i..e]] + Lines(h, e + 2)
  {
    hide IndexOf;
  }

  /** A rendered block is read back line by line; the last line is the blank one. */
  lemma {:induction false} LinesOfBlock(h: Bytes, i: nat, lines: seq<Bytes>)
    requires i <= |h| && PlainLines(lines) && h[i..] == Block(lines) + CRLF
    ensures Lines(h, i) == lines + [[]]
    decreases |lines|
  {
    hide IndexOf, Lines;
    if lines == [] {
      assert h[i..] == [] + CRLF + [];
      LineAt(h, i, [], []);
      LinesNext(h, i, i);
      NoLines(h, i + 2);
    } else {
      var l, more := lines[0], lines[1..];
      var after := Block(more) + CRLF;
      assert PlainLine(l) && h[i..] == l + CRLF + after;
      LineAt(h, i, l, after);
      LinesNext(h, i, i + |l|);
      LinesOfBlock(h, i + |l| + 2, more);
    }
  }

  lemma NoLines(h: Bytes, i: nat)
    requires i >= |h|
    ensures Lines(h, i) == []
  {
  }

  /** A status line "HTTP/v code ..." */
  predicate StatusOk(status: Bytes, p: nat, code: nat) {
    PlainLine(status) && LF !in status &&
    12 <= p + 4 <= |status| && status[..5] == HTTP && IndexOf(status, SP, 5) == p &&
    IsDigit(status[p + 1]) && IsDigit(status[p + 2]) && IsDigit(status[p + 3]) &&
    code == Digit(status[p + 1]) * 100 + Digit(status[p + 2]) * 10 + Digit(status[p + 3])
  }

  predicate OneDotOne(status: Bytes)
    requires |status| >= 8
  {
    status[5] == 49 && status[6] == 46 && status[7] >= 49
  }

  lemma StatusReads(s: Bytes, off: nat, status: Bytes, p: nat, code: nat)
    requires StatusOk(status, p, code) && |status| <= off <= |s| && s[..|status|] == status
    ensures ReadStatus(s, off) == Status(code, OneDotOne(status))
  {
    assert forall i :: 0 <= i < |status| ==> s[i] == s[..|status|][i] == status[i];
    assert s[..5] == status[..5];
    assert forall j :: 5 <= j < p ==> s[..off][j] == status[j];
    IndexOfIs(s[..off], SP, 5, p);
  }

  /** Where the parts of a rendered response are found. */
  lemma RenderLayout(status: Bytes, lines: seq<Bytes>, body: Bytes)
    requires PlainLine(status) && LF !in status && PlainLines(lines)
    ensures var s := Render(status, lines, body);
      var off := BlankLine(s, 0) + 4;
      |status| <= off <= |s| && s[..|status|] == status && s[off..] == body &&
      HeaderLines(s) == lines + [[]]
  {
    hide BlankLine, IndexOf, Lines;
    var s := Render(status, lines, body);
    var all := [status] + lines;
    assert s[0..] == s;
    BlankAtEnd(s, 0, all, body);
    var off := |Block(all)| + 2;
    var h := s[..off];
    assert all[1..] == lines;
    var after := Block(lines) + CRLF;
    assert h == Block(all) + CRLF == status + CRLF + after;
    assert h[0..] == h;
    LineAt(h, 0, status, after);
    assert s[..|status|] == h[..|status|] == h[0..|status|];
    assert forall j :: 0 <= j < |status| ==> h[j] == status[j];
    IndexOfIs(h, LF, 0, |status| + 1);
    LinesOfBlock(h, |status| + 2, lines);
  }

  /** A rendered response is judged by its own lines and its own body. */
  lemma RenderedParses(status: Bytes, p: nat, code: nat, lines: seq<Bytes>, body: Bytes, e: bool)
    requires StatusOk(status, p, code) && PlainLines(lines)
    ensures Parse(Render(status, lines, body), e) ==
      match Fold(NoHeadYet(OneDotOne(status)), lines)
        case None => Bad
        case Some(st) => Judge(code, st, body, e)
  {
    hide ReadStatus, Scan, Judge, Fold, BlankLine, IndexOf, HeaderLines, Render, PlainLines;
    var s := Render(status, lines, body);
    RenderLayout(status, lines, body);
    var off := BlankLine(s, 0) + 4;
    StatusReads(s, off, status, p, code);
    ScanReadsLines(s, OneDotOne(status));
    BlankLineIgnored(NoHeadYet(OneDotOne(status)), lines);
  }

  lemma BlankLineIgnored(st0: Head, lines: seq<Bytes>)
    ensures Fold(st0, lines + [[]]) == Fold(st0, lines)
  {
    assert (lines + [[]])[..|lines|] == lines;
  }

  /** With a Content-Length that counts the body, the body comes back, whatever follows it. */
  lemma LengthRoundTrip(status: Bytes, p: nat, code: nat, lines: seq<Bytes>, i: nat,
      body: Bytes, after: Bytes, e: bool)
    requires StatusOk(status, p, code) && PlainLines(lines)
    requires LengthsAgree(lines) && !AnyEncoding(lines)
    requires i < |lines| && IsLength(lines[i]) && LengthValue(lines[i]) == Some(|body|)
    ensures Parse(Render(status, lines, body + after), e) ==
      Complete(code, LastRetry(lines), LastConnection(lines, OneDotOne(status)), body)
  {
    hide Fold, LengthValue, LengthsAgree, Parse, Render, IsLength, IsEncoding, IsChunked,
      LastRetry, LastConnection;
    RenderedParses(status, p, code, lines, body + after, e);
    FoldMeans(lines, OneDotOne(status));
    FoldSomeMeans(Fold(NoHeadYet(OneDotOne(status)), lines).value, lines, OneDotOne(status));
    assert (body + after)[..|body|] == body;
  }

  /** With the chunked coding the data of the chunks comes back. */
  lemma ChunkedRoundTrip(status: Bytes, p: nat, code: nat, lines: seq<Bytes>, b: Body, e: bool)
    requires StatusOk(status, p, code) && PlainLines(lines)
    requires !AnyLength(lines) && AnyChunked(lines) && BodyOk(b)
    ensures Parse(Render(status, lines, EncBody(b)), e) ==
      Complete(code, LastRetry(lines), LastConnection(lines, OneDotOne(status)), ChunkData(b.chunks))
  {
    hide Fold, Parse, Render, Decode, EncBody, BodyOk, IsLength, IsEncoding, ChunkedValue,
      LastRetry, LastConnection;
    RenderedParses(status, p, code, lines, EncBody(b), e);
    FoldMeans(lines, OneDotOne(status));
    assert LengthsAgree(lines);
    FoldSomeMeans(Fold(NoHeadYet(OneDotOne(status)), lines).value, lines, OneDotOne(status));
    assert EncBody(b)[0..] == EncBody(b);
    GrammarDecodes(EncBody(b), 0, b);
  }

  // ---------------------------------------------------------------- numbers in header values

  predicate AllDigits(s: Bytes) { forall i :: 0 <= i < |s| ==> IsDigit(s[i]) }

  function DecValue(s: Bytes): (n: nat)
    requires AllDigits(s)
  {
    if s == [] then 0 else DecValue(s[..|s| - 1]) * 10 + Digit(s[|s| - 1])
  }

  /** The decimal digits of n, without leading zeros. */
  function Decimal(n: nat): (s: Bytes)
    ensures AllDigits(s) && s != [] && DecValue(s) == n && (n > 0 ==> s[0] != 48)
  {
    if n < 10 then
      assert [48 + n][..0] == [];
      [48 + n]
    else
      var front := Decimal(n / 10);
      assert (front + [48 + n % 10])[..|front|] == front;
      front + [48 + n % 10]
  }

  lemma DecValueNext(l: Bytes, i: nat, j: nat)
    requires i <= j < |l| && AllDigits(l[i..])
    ensures AllDigits(l[i..j]) && AllDigits(l[i..j + 1]) && IsDigit(l[j])
    ensures DecValue(l[i..j + 1]) == DecValue(l[i..j]) * 10 + Digit(l[j])
  {
    assert forall k :: i <= k < |l| ==> l[i..][k - i] == l[k];
    assert l[i..j + 1][..j - i] == l[i..j];
    assert l[i..j + 1] == l[i..j] + [l[j]];
  }

  /** More digits make the number no smaller. */
  lemma {:induction false} DecValueGrows(l: Bytes, i: nat, j: nat)
    requires i <= j <= |l| && AllDigits(l[i..])
    ensures AllDigits(l[i..j]) && DecValue(l[i..j]) <= DecValue(l[i..])
    decreases |l| - j
  {
    hide DecValue;
    if j < |l| {
      DecValueNext(l, i, j);
      DecValueGrows(l, i, j + 1);
    } else {
      assert l[i..j] == l[i..];
    }
  }

  lemma {:induction false} ReadLengthReads(l: Bytes, i: nat, j: nat)
    requires i <= j <= |l| && AllDigits(l[i..])
    requires AllDigits(l[i..j]) && DecValue(l[i..j]) <= RESP_MAX
    ensures ReadLength(l, j, DecValue(l[i..j])) ==
      if DecValue(l[i..]) <= RESP_MAX then Some(DecValue(l[i..])) else None
    decreases |l| - j
  {
    hide DecValue;
    if j < |l| {
      DecValueNext(l, i, j);
      DecValueGrows(l, i, j + 1);
      if DecValue(l[i..j + 1]) <= RESP_MAX { ReadLengthReads(l, i, j + 1); }
    } else {
      assert l[i..j] == l[i..];
    }
  }

  /** A Content-Length of n is read as n up to the cap, and refused above it. */
  lemma LengthIsRead(l: Bytes, n: nat)
    requires Starts(l, CONTENT_LENGTH) && l[SkipSpaces(l, 15)..] == Decimal(n)
    ensures LengthValue(l) == if n <= RESP_MAX then Some(n) else None
  {
    var i := SkipSpaces(l, 15);
    assert l[i..i] == [];
    ReadLengthReads(l, i, i);
  }

  function Pow10(k: nat): nat { if k == 0 then 1 else 10 * Pow10(k - 1) }

  lemma {:induction false} DecValueAtLeast(s: Bytes)
    requires AllDigits(s) && s != [] && s[0] != 48
    ensures DecValue(s) >= Pow10(|s| - 1)
  {
    if |s| > 1 {
      DecValueAtLeast(s[..|s| - 1]);
    } else {
      assert s[..0] == [];
    }
  }

  lemma {:induction false} ReadSecondsReads(l: Bytes, i: nat, j: nat, end: nat, room: nat)
    requires i <= j <= end <= |l| && AllDigits(l[i..]) && AllDigits(l[i..j])
    requires end - j == room || (end == |l| && end - j <= room)
    ensures AllDigits(l[i..end])
    ensures ReadSeconds(l, j, room, DecValue(l[i..j])) == DecValue(l[i..end])
    decreases end - j
  {
    hide DecValue;
    if j < end {
      DecValueNext(l, i, j);
      ReadSecondsReads(l, i, j + 1, end, room - 1);
    }
  }

  /** Any number of seconds, of any length, is read as its value cut off at the ceiling. */
  lemma RetryIsRead(l: Bytes, n: nat)
    requires Starts(l, RETRY_AFTER) && l[SkipSpaces(l, 12)..] == Decimal(n)
    ensures RetryValue(l) == Min(n, RETRY_AFTER_MAX_S) * 1000
  {
    var i := SkipSpaces(l, 12);
    var end := if |l| - i <= 10 then |l| else i + 10;
    assert l[i..i] == [];
    ReadSecondsReads(l, i, i, end, 10);
    DecValueGrows(l, i, end);
    if end < |l| {
      assert n < 10 ==> |Decimal(n)| == 1;
      assert l[i..end][0] == l[i..][0] == Decimal(n)[0];
      DecValueAtLeast(l[i..end]);
      assert Pow10(9) >= RETRY_AFTER_MAX_S;
    } else {
      assert l[i..end] == l[i..];
    }
  }

  // ---------------------------------------------------------------- the parser

  /** strncasecmp: it stops at the CR after the text at the latest. */
  method NoCase(buf: array<byte>, i: nat, lit: Bytes, ghost end: nat) returns (same: bool)
    requires i <= end < buf.Length && buf[end] == CR && forall j :: 0 <= j < |lit| ==> lit[j] > SP
    ensures same == Starts(buf[i..end], lit)
  {
    var k := 0;
    while k < |lit|
      invariant 0 <= k <= |lit| && i + k <= end
      invariant forall j :: 0 <= j < k ==> Lower(buf[i..end][j]) == lit[j]
    {
      if Lower(buf[i + k]) != lit[k] { return false; }
      k := k + 1;
    }
    return true;
  }

  method SkipBlanks(buf: array<byte>, line: nat, from: nat, eol: nat) returns (v: nat)
    requires line <= from <= eol <= buf.Length
    ensures from <= v <= eol && v - line == SkipSpaces(buf[line..eol], from - line)
  {
    v := from;
    while v < eol && buf[v] == SP
      invariant from <= v <= eol
      invariant SkipSpaces(buf[line..eol], from - line) == SkipSpaces(buf[line..eol], v - line)
    {
      v := v + 1;
    }
  }

  method LengthOf(buf: array<byte>, line: nat, eol: nat) returns (r: Option<nat>)
    requires line <= eol <= buf.Length && Starts(buf[line..eol], CONTENT_LENGTH)
    ensures r == LengthValue(buf[line..eol])
  {
    var v := SkipBlanks(buf, line, line + 15, eol);
    ghost var start := v;
    var val: nat := 0;
    while v < eol && IsDigit(buf[v])
      invariant start <= v <= eol
      invariant LengthValue(buf[line..eol]) == ReadLength(buf[line..eol], v - line, val)
    {
      val := val * 10 + Digit(buf[v]);
      if val > RESP_MAX { return None; }
      v := v + 1;
    }
    return Some(val);
  }

  method SecondsOf(buf: array<byte>, line: nat, eol: nat) returns (sec: nat)
    requires line <= eol <= buf.Length && Starts(buf[line..eol], RETRY_AFTER)
    ensures sec < UINT64_RANGE && Min(sec, RETRY_AFTER_MAX_S) * 1000 == RetryValue(buf[line..eol])
  {
    var v := SkipBlanks(buf, line, line + 12, eol);
    ghost var l := buf[line..eol];
    ghost var start := v;
    var digits: nat := 0;
    sec := 0;
    while v < eol && IsDigit(buf[v]) && digits < 10
      invariant start <= v <= eol && digits <= 10 && sec < Pow10(digits)
      invariant ReadSeconds(l, start - line, 10, 0) == ReadSeconds(l, v - line, 10 - digits, sec)
    {
      sec := sec * 10 + Digit(buf[v]);
      digits := digits + 1;
      v := v + 1;
    }
    Pow10Grows(digits, 10);
  }

  lemma {:induction false} Pow10Grows(j: nat, k: nat)
    requires j <= k
    ensures Pow10(j) <= Pow10(k)
  {
    if j < k { Pow10Grows(j, k - 1); }
  }

  method EncodingIsChunked(buf: array<byte>, line: nat, eol: nat) returns (r: bool)
    requires line <= eol < buf.Length && buf[eol] == CR
    requires Starts(buf[line..eol], TRANSFER_ENCODING)
    ensures r == ChunkedValue(buf[line..eol])
  {
    var v := SkipBlanks(buf, line, line + 18, eol);
    assert buf[line..eol][v - line..] == buf[v..eol];
    if eol - v != 7 { return false; }
    r := NoCase(buf, v, CHUNKED, eol);
  }

  method ConnectionOf(buf: array<byte>, line: nat, eol: nat, was: bool) returns (r: bool)
    requires line <= eol < buf.Length && buf[eol] == CR
    requires Starts(buf[line..eol], CONNECTION)
    ensures r == ConnectionValue(buf[line..eol], was)
  {
    var v := SkipBlanks(buf, line, line + 11, eol);
    assert buf[line..eol][v - line..] == buf[v..eol];
    var close := NoCase(buf, v, CLOSE, eol);
    if close { return false; }
    if eol - v < 10 { return was; }
    var keep := NoCase(buf, v, KEEP_ALIVE, eol);
    return if keep then true else was;
  }

  method ReadLine(buf: array<byte>, line: nat, eol: nat, st: Head) returns (r: Option<Head>)
    requires line <= eol < buf.Length && buf[eol] == CR
    ensures r == Step(st, buf[line..eol])
  {
    hide LengthValue, ChunkedValue, RetryValue, ConnectionValue, Starts;
    var named := NoCase(buf, line, CONTENT_LENGTH, eol);
    if named {
      var v := LengthOf(buf, line, eol);
      if v.None? { return None; }
      if st.length.Some? && st.length.value != v.value { return None; }
      return Some(st.(length := v));
    }
    named := NoCase(buf, line, TRANSFER_ENCODING, eol);
    if named {
      var chunked := EncodingIsChunked(buf, line, eol);
      return Some(st.(te := true, chunked := st.chunked || chunked));
    }
    named := NoCase(buf, line, RETRY_AFTER, eol);
    if named {
      var sec := SecondsOf(buf, line, eol);
      return Some(st.(retryMs := Min(sec, RETRY_AFTER_MAX_S) * 1000));
    }
    named := NoCase(buf, line, CONNECTION, eol);
    if named {
      var keep := ConnectionOf(buf, line, eol, st.keepalive);
      return Some(st.(keepalive := keep));
    }
    return Some(st);
  }

  method ScanHeaders(buf: array<byte>, from: nat, hdrEnd: nat, st0: Head) returns (r: Option<Head>)
    requires hdrEnd <= buf.Length
    ensures r == Scan(buf[..hdrEnd], from, st0)
  {
    hide Step;
    ghost var h := buf[..hdrEnd];
    var hdr, st := from, st0;
    while hdr < hdrEnd
      invariant Scan(h, from, st0) == Scan(h, hdr, st)
      decreases hdrEnd - hdr
    {
      var eol := hdr;
      while eol < hdrEnd && buf[eol] != CR
        invariant hdr <= eol <= hdrEnd
        invariant IndexOf(h, CR, hdr) == IndexOf(h, CR, eol)
      {
        eol := eol + 1;
      }
      if eol >= hdrEnd { return None; }
      assert h[hdr..eol] == buf[hdr..eol];
      var next := ReadLine(buf, hdr, eol, st);
      if next.None? { return None; }
      hdr, st := eol + 2, next.value;
    }
    return Some(st);
  }

  method ReadStatusLine(buf: array<byte>, len: nat, off: nat) returns (r: StatusLine)
    requires off <= len <= buf.Length
    ensures r == ReadStatus(buf[..len], off)
  {
    ghost var s := buf[..len];
    if len < 12 || off < 5 { return NoStatus; }
    assert s[..5] == buf[..5];
    if buf[..5] != HTTP { return NoStatus; }
    var p: nat := 5;
    while p < off && buf[p] != SP
      invariant 5 <= p <= off
      invariant IndexOf(s[..off], SP, 5) == IndexOf(s[..off], SP, p)
    {
      p := p + 1;
    }
    if p >= off { return NoStatus; }
    p := p + 1;
    if p + 3 > off || !IsDigit(buf[p]) || !IsDigit(buf[p + 1]) || !IsDigit(buf[p + 2]) {
      return NoStatus;
    }
    return Status(Digit(buf[p]) * 100 + Digit(buf[p + 1]) * 10 + Digit(buf[p + 2]),
                  buf[5] == 49 && buf[6] == 46 && buf[7] >= 49);
  }

  /** struct otlp_http_resp: the body is `buf[body..body + bodyLen]`. */
  datatype Resp = Resp(status: nat, retryMs: nat, keepalive: bool, body: nat, bodyLen: nat)

  /** What the caller sees of a return code and of the response that goes with 1. */
  ghost predicate Returns(v: Verdict, rc: int, out: Resp, buf: array<byte>)
    reads buf
  {
    match v
    case Incomplete => rc == 0
    case Bad => rc == -1
    case Complete(status, retryMs, keepalive, body) =>
      rc == 1 && out.status == status && out.retryMs == retryMs && out.keepalive == keepalive &&
      out.body + out.bodyLen <= buf.Length && buf[out.body..out.body + out.bodyLen] == body
  }

  const NO_RESP := Resp(0, 0, false, 0, 0)

  method ReadBody(buf: array<byte>, len: nat, off: nat, code: nat, st: Head, atEof: bool)
    returns (rc: int, out: Resp)
    requires off <= len <= buf.Length
    modifies buf
    ensures Returns(Judge(code, st, old(buf[off..len]), atEof), rc, out, buf)
    ensures buf[..off] == old(buf[..off]) && buf[len..] == old(buf[len..])
    ensures !st.te ==> buf[..] == old(buf[..])
  {
    hide Decode, Whole;
    ghost var rest := buf[off..len];
    out := NO_RESP;
    if st.te {
      if st.length.Some? || !st.chunked { return -1, out; }
      var n;
      rc, n := DecodeChunkedInPlace(buf, off, len);
      if rc == 1 { out := Resp(code, st.retryMs, st.keepalive, off, n); }
    } else if st.length.Some? {
      if len - off < st.length.value { return 0, out; }
      rc, out := 1, Resp(code, st.retryMs, st.keepalive, off, st.length.value);
      assert buf[off..off + st.length.value] == rest[..st.length.value];
    } else {
      if !atEof { return 0, out; }
      rc, out := 1, Resp(code, st.retryMs, false, off, len - off);
    }
  }

  /** otlp_http_resp_parse */
  method ParseResponse(buf: array<byte>, len: nat, atEof: bool) returns (rc: int, out: Resp)
    requires len <= buf.Length
    modifies buf
    ensures Returns(Parse(old(buf[..len]), atEof), rc, out, buf)
    ensures buf[len..] == old(buf[len..])
  {
    hide ReadStatus, Scan, Judge, BlankLine;
    ghost var s := buf[..len];
    out := NO_RESP;
    assert buf[0..len] == s;
    var k := FindBlankLine(buf, 0, len, 0, s);
    if k == len { return 0, out; }
    assert IsBlank(s, k);
    var off := k + 4;
    var line := ReadStatusLine(buf, len, off);
    if line.NoStatus? { return -1, out; }
    assert s[..off] == buf[..off];
    var hdr := 0;
    while hdr < off && buf[hdr] != LF
      invariant 0 <= hdr <= off
      invariant IndexOf(s[..off], LF, 0) == IndexOf(s[..off], LF, hdr)
    {
      hdr := hdr + 1;
    }
    if hdr >= off { return -1, out; }
    var st := ScanHeaders(buf, hdr + 1, off, NoHeadYet(line.keepalive));
    if st.None? { return -1, out; }
    assert s[off..] == buf[off..len];
    rc, out := ReadBody(buf, len, off, line.code, st.value, atEof);
  }
}
