/**
 What the lines of a response say, in their own letters and digits: the header names in any case,
 the values behind any spaces, the status line; and what that makes of a rendered response. The
 statements stand beside the functions of HttpResponse, which the parser computes.
 */
module HttpHeaders {
  import opened Common
  import opened HttpChunked
  import opened HttpResponse

  // ---------------------------------------------------------------- letters and spaces

  /** The byte is the lower-case character `t` or its capital. */
  predicate Letter(c: byte, t: char) {
    c == t as int || ('a' <= t <= 'z' && c == t as int - 32)
  }

  /** The line begins with the lower-case text, in any case. */
  predicate Says(l: Bytes, text: string) {
    |text| <= |l| && forall j :: 0 <= j < |text| ==> Letter(l[j], text[j])
  }

  /** The value of a line whose name ends at `from` begins at `k`, behind any spaces. */
  predicate ValueAt(l: Bytes, from: nat, k: nat) {
    from <= k <= |l| && (forall j :: from <= j < k ==> l[j] == 32) && (k < |l| ==> l[k] != 32)
  }

  lemma {:induction false} ValueIs(l: Bytes, from: nat, k: nat)
    requires ValueAt(l, from, k)
    ensures SkipSpaces(l, from) == k
    decreases k - from
  {
    if from < k { ValueIs(l, from + 1, k); }
  }

  lemma SaysStarts(l: Bytes, text: string, lit: Bytes)
    requires |lit| == |text|
    requires forall j :: 0 <= j < |text| ==>
      lit[j] == text[j] as int && (text[j] < 'A' || 'Z' < text[j])
    ensures Says(l, text) <==> Starts(l, lit)
  {
    forall c: byte, j | 0 <= j < |text| ensures Letter(c, text[j]) <==> Lower(c) == lit[j] {
      assert lit[j] == text[j] as int;
    }
  }

  /** The header names, each with its colon. */
  lemma NamesAre(l: Bytes)
    ensures IsLength(l) <==> Says(l, "content-length:")
    ensures IsEncoding(l) <==> Says(l, "transfer-encoding:")
    ensures Starts(l, RETRY_AFTER) <==> Says(l, "retry-after:")
    ensures Starts(l, CONNECTION) <==> Says(l, "connection:")
  {
    hide Says, Starts;
    SaysStarts(l, "content-length:", CONTENT_LENGTH);
    SaysStarts(l, "transfer-encoding:", TRANSFER_ENCODING);
    SaysStarts(l, "retry-after:", RETRY_AFTER);
    SaysStarts(l, "connection:", CONNECTION);
  }

  // ---------------------------------------------------------------- values

  /** "close" makes the connection one that ends, "keep-alive" one that stays, and any other value
      leaves it as it was. */
  lemma ConnectionIsRead(l: Bytes, k: nat, was: bool)
    requires Says(l, "connection:") && ValueAt(l, 11, k)
    ensures Starts(l, CONNECTION)
    ensures Says(l[k..], "close") ==> ConnectionValue(l, was) == false
    ensures Says(l[k..], "keep-alive") ==> ConnectionValue(l, was) == true
    ensures !Says(l[k..], "close") && !Says(l[k..], "keep-alive") ==> ConnectionValue(l, was) == was
  {
    NamesAre(l);
    ValueIs(l, 11, k);
    SaysStarts(l[k..], "close", CLOSE);
    SaysStarts(l[k..], "keep-alive", KEEP_ALIVE);
    NotBoth(l[k..]);
  }

  lemma NotBoth(v: Bytes)
    ensures !(Says(v, "close") && Says(v, "keep-alive"))
  {
    if Says(v, "close") { assert Letter(v[0], "close"[0]); }
  }

  /** Only the bare word "chunked" names a coding that can be decoded. */
  lemma EncodingIsRead(l: Bytes, k: nat)
    requires Says(l, "transfer-encoding:") && ValueAt(l, 18, k)
    ensures IsChunked(l) <==> |l| == k + 7 && Says(l[k..], "chunked")
  {
    NamesAre(l);
    ValueIs(l, 18, k);
    SaysStarts(l[k..], "chunked", CHUNKED);
    hide Says, Starts, SkipSpaces;
  }

  lemma DigitsNext(l: Bytes, i: nat, j: nat, end: nat)
    requires i <= j < end <= |l| && AllDigits(l[i..end])
    ensures AllDigits(l[i..j]) && AllDigits(l[i..j + 1]) && IsDigit(l[j])
    ensures DecValue(l[i..j + 1]) == DecValue(l[i..j]) * 10 + Digit(l[j])
  {
    assert forall k :: i <= k < end ==> l[i..end][k - i] == l[k];
    assert l[i..j + 1][..j - i] == l[i..j];
    assert l[i..j + 1] == l[i..j] + [l[j]];
  }

  lemma {:induction false} DigitsGrow(l: Bytes, i: nat, j: nat, end: nat)
    requires i <= j <= end <= |l| && AllDigits(l[i..end])
    ensures AllDigits(l[i..j]) && DecValue(l[i..j]) <= DecValue(l[i..end])
    decreases end - j
  {
    hide DecValue;
    if j < end {
      DigitsNext(l, i, j, end);
      DigitsGrow(l, i, j + 1, end);
    }
  }

  lemma {:induction false} LengthStops(l: Bytes, i: nat, j: nat, end: nat)
    requires i <= j <= end <= |l| && AllDigits(l[i..end]) && (end < |l| ==> !IsDigit(l[end]))
    requires AllDigits(l[i..j]) && DecValue(l[i..j]) <= 65536
    ensures ReadLength(l, j, DecValue(l[i..j])) ==
      if DecValue(l[i..end]) <= 65536 then Some(DecValue(l[i..end])) else None
    decreases end - j
  {
    hide DecValue;
    if j < end {
      DigitsNext(l, i, j, end);
      DigitsGrow(l, i, j + 1, end);
      if DecValue(l[i..j + 1]) <= 65536 { LengthStops(l, i, j + 1, end); }
    }
  }

  /** A Content-Length is the number that its leading digits write, none of them meaning 0, up to
      64 KiB; a larger one is refused. */
  lemma LengthIsNumber(l: Bytes, k: nat, end: nat)
    requires Says(l, "content-length:") && ValueAt(l, 15, k)
    requires k <= end <= |l| && AllDigits(l[k..end]) && (end < |l| ==> !IsDigit(l[end]))
    ensures IsLength(l)
    ensures LengthValue(l) == if DecValue(l[k..end]) <= 65536 then Some(DecValue(l[k..end])) else None
  {
    NamesAre(l);
    ValueIs(l, 15, k);
    assert l[k..k] == [];
    LengthStops(l, k, k, end);
  }

  lemma {:induction false} SecondsStop(l: Bytes, i: nat, j: nat, end: nat, room: nat)
    requires i <= j <= end <= |l| && AllDigits(l[i..end]) && AllDigits(l[i..j])
    requires end - j == room || (end - j < room && (end < |l| ==> !IsDigit(l[end])))
    ensures ReadSeconds(l, j, room, DecValue(l[i..j])) == DecValue(l[i..end])
    decreases end - j
  {
    hide DecValue;
    if j < end {
      DigitsNext(l, i, j, end);
      SecondsStop(l, i, j + 1, end, room - 1);
    }
  }

  /** A Retry-After is the number of seconds that its leading digits write, at most ten of them and
      none meaning 0, cut off at 4294967 and in milliseconds. */
  lemma RetryIsNumber(l: Bytes, k: nat, end: nat)
    requires Says(l, "retry-after:") && ValueAt(l, 12, k)
    requires k <= end <= |l| && AllDigits(l[k..end]) && end <= k + 10
    requires end < k + 10 && end < |l| ==> !IsDigit(l[end])
    ensures Starts(l, RETRY_AFTER)
    ensures RetryValue(l) == Min(DecValue(l[k..end]), 4294967) * 1000
  {
    NamesAre(l);
    ValueIs(l, 12, k);
    assert l[k..k] == [];
    SecondsStop(l, k, k, end, 10);
  }

  // ---------------------------------------------------------------- the last line that decides

  predicate Closes(l: Bytes) {
    Says(l, "connection:") && exists k :: 0 <= k <= |l| && ValueAt(l, 11, k) && Says(l[k..], "close")
  }

  predicate Keeps(l: Bytes) {
    Says(l, "connection:") &&
    exists k :: 0 <= k <= |l| && ValueAt(l, 11, k) && Says(l[k..], "keep-alive")
  }

  predicate Undecided(lines: seq<Bytes>, from: nat) {
    forall j :: from <= j < |lines| ==> !Closes(lines[j]) && !Keeps(lines[j])
  }

  /** The last line that says close or keep-alive decides; without one the default holds. */
  predicate LastDecides(lines: seq<Bytes>, default: bool, keepalive: bool) {
    (Undecided(lines, 0) ==> keepalive == default) &&
    forall i :: 0 <= i < |lines| && (Closes(lines[i]) || Keeps(lines[i])) && Undecided(lines, i + 1) ==>
      keepalive == Keeps(lines[i])
  }

  /** What a line makes of the connection. */
  lemma LineDecides(l: Bytes, was: bool)
    ensures var r := if Starts(l, CONNECTION) then ConnectionValue(l, was) else was;
      r == if Closes(l) then false else if Keeps(l) then true else was
    ensures !(Closes(l) && Keeps(l))
  {
    hide ConnectionValue, Starts, Says;
    NamesAre(l);
    if Says(l, "connection:") {
      assert |l| >= 11 by { SaysLength(l); }
      var k := SkipSpaces(l, 11);
      assert ValueAt(l, 11, k);
      ConnectionIsRead(l, k, was);
      NotBoth(l[k..]);
      forall j | 0 <= j <= |l| && ValueAt(l, 11, j) ensures j == k { ValueIs(l, 11, j); }
    }
  }

  lemma SaysLength(l: Bytes)
    requires Says(l, "connection:")
    ensures |l| >= 11
  {
  }

  lemma {:induction false} ConnectionIsLast(lines: seq<Bytes>, default: bool)
    ensures LastDecides(lines, default, LastConnection(lines, default))
  {
    hide Closes, Keeps, ConnectionValue, Starts;
    if lines != [] {
      var n := |lines| - 1;
      var init, l := lines[..n], lines[n];
      ConnectionIsLast(init, default);
      LineDecides(l, LastConnection(init, default));
      assert forall j :: 0 <= j < n ==> init[j] == lines[j];
      forall i: nat | i <= n && Undecided(lines, i) ensures Undecided(init, i) && Undecided(lines, n) {}
    }
  }

  predicate NoRetry(lines: seq<Bytes>, from: nat) {
    forall j :: from <= j < |lines| ==> !Says(lines[j], "retry-after:")
  }

  function RetryMs(l: Bytes): nat { if Starts(l, RETRY_AFTER) then RetryValue(l) else 0 }

  /** The last Retry-After line counts; without one there is nothing to wait for. */
  lemma {:induction false} RetryIsLast(lines: seq<Bytes>)
    ensures NoRetry(lines, 0) ==> LastRetry(lines) == 0
    ensures forall i :: 0 <= i < |lines| && Says(lines[i], "retry-after:") && NoRetry(lines, i + 1) ==>
      LastRetry(lines) == RetryMs(lines[i])
  {
    if lines != [] {
      hide Says, LastRetry, RetryMs;
      var n := |lines| - 1;
      var init := lines[..n];
      RetryIsLast(init);
      RetryNext(lines);
      assert forall j :: 0 <= j < n ==> init[j] == lines[j];
      forall i | 0 <= i <= n && Says(lines[i], "retry-after:") && NoRetry(lines, i + 1)
        ensures LastRetry(lines) == RetryMs(lines[i])
      {
        if i < n { assert !Says(lines[n], "retry-after:") && NoRetry(init, i + 1); }
      }
    }
  }

  lemma RetryNext(lines: seq<Bytes>)
    requires lines != []
    ensures var n := |lines| - 1;
      LastRetry(lines) ==
        if Says(lines[n], "retry-after:") then RetryMs(lines[n]) else LastRetry(lines[..n])
  {
    hide Says, Starts, RetryValue;
    NamesAre(lines[|lines| - 1]);
  }

  // ---------------------------------------------------------------- the status line

  /** The first space behind "HTTP/" and the version stands at `p`, and three digits follow. */
  predicate StatusAt(s: Bytes, off: nat, p: nat) {
    12 <= |s| && off <= |s| && 5 <= p && p + 4 <= off &&
    s[0] == 'H' as int && s[1] == 'T' as int && s[2] == 'T' as int && s[3] == 'P' as int &&
    s[4] == '/' as int && s[p] == ' ' as int && (forall j :: 5 <= j < p ==> s[j] != ' ' as int) &&
    forall j :: p < j <= p + 3 ==> '0' as int <= s[j] <= '9' as int
  }

  /** The number of three digits. */
  function Three(a: int, b: int, c: int): nat
    requires a >= 48 && b >= 48 && c >= 48
  {
    (a - 48) * 100 + (b - 48) * 10 + (c - 48)
  }

  /** The status is the number of those three digits; persistent is the default from 1.1 on. */
  lemma StatusIsRead(s: Bytes, off: nat)
    requires off <= |s|
    ensures ReadStatus(s, off).Status? <==> exists p: nat :: StatusAt(s, off, p)
    ensures forall p: nat :: StatusAt(s, off, p) ==>
      ReadStatus(s, off) == Status(Three(s[p + 1], s[p + 2], s[p + 3]),
                                   s[5] == '1' as int && s[6] == '.' as int && s[7] >= '1' as int)
  {
    hide IndexOf;
    HttpLetters();
    forall p: nat | StatusAt(s, off, p)
      ensures ReadStatus(s, off) ==
        Status(Three(s[p + 1], s[p + 2], s[p + 3]),
               s[5] == '1' as int && s[6] == '.' as int && s[7] >= '1' as int)
    {
      assert s[..5] == [s[0], s[1], s[2], s[3], s[4]];
      assert forall j :: 5 <= j < p ==> s[..off][j] == s[j];
      IndexOfIs(s[..off], SP, 5, p);
    }
    if ReadStatus(s, off).Status? {
      var p := IndexOf(s[..off], SP, 5);
      assert s[..5] == [s[0], s[1], s[2], s[3], s[4]];
      assert forall j :: 5 <= j < p ==> s[j] == s[..off][j] != SP;
      assert s[p] == s[..off][p] == SP;
      assert StatusAt(s, off, p);
    }
  }

  lemma HttpLetters()
    ensures HTTP == [72, 84, 84, 80, 47]
  {
  }

  // ---------------------------------------------------------------- rendered responses

  /**
   Without a length and a coding the body is all that arrives until the stream ends, and the
   connection is not kept; before the end there is no verdict.
   */
  lemma UntilEofRoundTrip(status: Bytes, p: nat, code: nat, lines: seq<Bytes>, body: Bytes)
    requires StatusOk(status, p, code) && PlainLines(lines) && !AnyLength(lines) && !AnyEncoding(lines)
    ensures Parse(Render(status, lines, body), true) == Complete(code, LastRetry(lines), false, body)
    ensures Parse(Render(status, lines, body), false) == Incomplete
  {
    hide Fold, Parse, Render, IsLength, IsEncoding, IsChunked, LastRetry, LastConnection;
    RenderedParses(status, p, code, lines, body, true);
    RenderedParses(status, p, code, lines, body, false);
    FoldMeans(lines, OneDotOne(status));
    assert LengthsAgree(lines);
    FoldSomeMeans(Fold(NoHeadYet(OneDotOne(status)), lines).value, lines, OneDotOne(status));
  }

  /** How the body is framed: by the last chunk, by the length that the lines agree on, by the end. */
  ghost predicate FramedAs(lines: seq<Bytes>, body: Bytes, e: bool, v: Verdict) {
    if AnyEncoding(lines) then
      match Decode(body, 0)
      case NeedMore => v.Incomplete?
      case Malformed => v.Bad?
      case Decoded(data) => v.Complete? && v.body == data
    else if AnyLength(lines) then
      forall i :: 0 <= i < |lines| && IsLength(lines[i]) ==>
        var n := LengthValue(lines[i]);
        n.Some? &&
        if |body| < n.value then v.Incomplete? else v.Complete? && v.body == body[..n.value]
    else if e then v.Complete? && v.body == body
    else v.Incomplete?
  }

  /**
   The verdict on any rendered response: malformed when its framing headers are refused, otherwise
   framed as its lines say; and a complete one has the status, the last Retry-After and the
   connection of its lines.
   */
  lemma RenderedVerdict(status: Bytes, p: nat, code: nat, lines: seq<Bytes>, body: Bytes, e: bool)
    requires StatusOk(status, p, code) && PlainLines(lines)
    ensures var v := Parse(Render(status, lines, body), e);
      (RefusedFraming(lines) ==> v.Bad?) && (!RefusedFraming(lines) ==> FramedAs(lines, body, e, v)) &&
      (v.Complete? ==>
        v.status == code && v.retryMs == LastRetry(lines) &&
        if AnyLength(lines) || AnyEncoding(lines) then
          LastDecides(lines, status[5] == 49 && status[6] == 46 && status[7] >= 49, v.keepalive)
        else !v.keepalive)
  {
    hide Fold, Parse, Render, IsLength, IsEncoding, IsChunked, LastRetry, LastConnection, LengthsAgree,
      LastDecides, Decode, LengthValue, StatusOk, PlainLines;
    StatusLong(status, p, code);
    var keep := OneDotOne(status);
    RenderedParses(status, p, code, lines, body, e);
    FoldIs(lines, keep);
    ConnectionIsLast(lines, keep);
    var st := Fold(NoHeadYet(keep), lines);
    if st.Some? { FoldSomeMeans(st.value, lines, keep); }
  }

  lemma StatusLong(status: Bytes, p: nat, code: nat)
    requires StatusOk(status, p, code)
    ensures |status| >= 12
  {
  }
}
