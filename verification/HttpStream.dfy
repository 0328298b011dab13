/**
 The chunked decoder of HttpChunked one byte at a time: an automaton that every byte drives, which
 gives the verdict of the decoder on any bytes. Its states, but for data that can no longer be
 returned, tell exactly the bodies apart that some further bytes tell apart; so they say when
 parsing a buffer again after an incomplete call goes on like the body that was received.
 */
module HttpStream {
  import opened Common
  import opened HttpChunked

  // ---------------------------------------------------------------- the automaton

  /**
   Where the decoder stands: in a size line worth `v` so far, in `left` bytes of chunk data, in
   their CRLF, or in a trailer that ends in the first `matched` bytes of a blank line. NoSize and
   NoCr are the two stuck shapes.
   */
  datatype Control =
    | SizeStart
    | Digits(v: nat)
    | Ext(v: nat)
    | ExtCr(v: nat)
    | Data(left: nat)
    | DataEnd
    | DataCr
    | Trailer(matched: nat)
    | Complete
    | Broken
    | NoSize
    | NoCr

  /** What was decoded so far, and where the decoder stands. */
  datatype State = State(got: Bytes, at: Control)

  const BEGIN := State([], SizeStart)

  function AfterDigit(v: nat, c: byte): Control {
    if !IsHex(c) || v * 16 + HexDigit(c) > RESP_MAX then Broken else Digits(v * 16 + HexDigit(c))
  }

  /** After the size line: the CRLF behind it may be the first half of a blank line. */
  function AfterLine(v: nat): Control { if v == 0 then Trailer(2) else Data(v) }

  function AfterTrailer(matched: nat, c: byte): Control {
    if c == CR then Trailer(if matched == 2 then 3 else 1)
    else if c == LF && matched == 1 then Trailer(2)
    else if c == LF && matched == 3 then Complete
    else Trailer(0)
  }

  function Feed(q: State, c: byte): State {
    match q.at
    case SizeStart => q.(at := if c == CR || c == SEMI then NoSize else AfterDigit(0, c))
    case Digits(v) =>
      q.(at := if c == CR then ExtCr(v) else if c == SEMI then Ext(v) else AfterDigit(v, c))
    case Ext(v) => q.(at := if c == CR then ExtCr(v) else Ext(v))
    case ExtCr(v) => q.(at := if c == LF then AfterLine(v) else Broken)
    case Data(left) => State(q.got + [c], if left <= 1 then DataEnd else Data(left - 1))
    case DataEnd => q.(at := if c == CR then DataCr else NoCr)
    case DataCr => q.(at := if c == LF then SizeStart else Broken)
    case Trailer(matched) => q.(at := AfterTrailer(matched, c))
    case NoCr => q.(at := Broken)
    case _ => q
  }

  function FeedAll(q: State, s: Bytes): State
    decreases |s|
  {
    if s == [] then q else FeedAll(Feed(q, s[0]), s[1..])
  }

  function Verdict(q: State): Chunked {
    match q.at
    case Complete => Decoded(q.got)
    case Broken => Malformed
    case _ => NeedMore
  }

  lemma {:induction false} FeedConcat(q: State, s: Bytes, t: Bytes)
    ensures FeedAll(q, s + t) == FeedAll(FeedAll(q, s), t)
    decreases |s|
  {
    hide Feed;
    if s == [] {
      assert s + t == t;
    } else {
      assert (s + t)[1..] == s[1..] + t;
      FeedConcat(Feed(q, s[0]), s[1..], t);
    }
  }

  /** One byte at a position. */
  lemma FeedAt(q: State, s: Bytes, i: nat)
    requires i < |s|
    ensures FeedAll(q, s[i..]) == FeedAll(Feed(q, s[i]), s[i + 1..])
  {
    assert s[i..][1..] == s[i + 1..];
  }

  lemma {:induction false} Stays(q: State, s: Bytes)
    requires q.at in {Complete, Broken, NoSize}
    ensures FeedAll(q, s) == q
    decreases |s|
  {
    if s != [] { Stays(q, s[1..]); }
  }

  // ---------------------------------------------------------------- size lines

  lemma {:induction false} DigitsFeed(g: Bytes, s: Bytes, i: nat, v: nat)
    requires i <= |s| && v <= RESP_MAX
    ensures var r, q := ScanSize(s, i, v), FeedAll(State(g, Digits(v)), s[i..]);
      (r.BadSize? ==> q.at == Broken) &&
      (r.Size? ==> q == FeedAll(State(g, Digits(r.size)), s[r.end..]))
    decreases |s| - i
  {
    if !EndsSize(s, i) {
      FeedAt(State(g, Digits(v)), s, i);
      var q := Feed(State(g, Digits(v)), s[i]);
      if q.at == Broken {
        Stays(q, s[i + 1..]);
      } else {
        DigitsFeed(g, s, i + 1, v * 16 + HexDigit(s[i]));
      }
    }
  }

  lemma {:induction false} ExtFeeds(g: Bytes, s: Bytes, i: nat, v: nat)
    requires i <= |s|
    ensures var cr, q := IndexOf(s, CR, i), FeedAll(State(g, Ext(v)), s[i..]);
      q == if cr == |s| then State(g, Ext(v)) else FeedAll(State(g, ExtCr(v)), s[cr + 1..])
    decreases |s| - i
  {
    if i < |s| {
      FeedAt(State(g, Ext(v)), s, i);
      if s[i] != CR { ExtFeeds(g, s, i + 1, v); }
    }
  }

  /** From the end of the digits. */
  lemma SizeEndFeeds(g: Bytes, s: Bytes, e: nat, v: nat)
    requires e < |s| && (s[e] == CR || s[e] == SEMI)
    ensures var cr, q := IndexOf(s, CR, e), FeedAll(State(g, Digits(v)), s[e..]);
      q == if cr == |s| then State(g, Ext(v)) else FeedAll(State(g, ExtCr(v)), s[cr + 1..])
  {
    FeedAt(State(g, Digits(v)), s, e);
    if s[e] == SEMI { ExtFeeds(g, s, e + 1, v); }
  }

  predicate InLine(at: Control) {
    at.SizeStart? || at.NoSize? || at.Digits? || at.Ext? || at.ExtCr?
  }

  lemma ExtCrFeeds(g: Bytes, s: Bytes, cr: nat, v: nat)
    requires cr < |s|
    ensures var q := FeedAll(State(g, ExtCr(v)), s[cr + 1..]);
      if cr + 1 == |s| then q == State(g, ExtCr(v))
      else if s[cr + 1] != LF then q.at == Broken
      else q == FeedAll(State(g, AfterLine(v)), s[cr + 2..])
  {
    if cr + 1 < |s| {
      FeedAt(State(g, ExtCr(v)), s, cr + 1);
      if s[cr + 1] != LF { Stays(State(g, Broken), s[cr + 2..]); }
    }
  }

  lemma LineFeeds(g: Bytes, s: Bytes, src: nat)
    requires src <= |s|
    ensures var r, q := SizeLine(s, src), FeedAll(State(g, SizeStart), s[src..]);
      match r
      case LineMalformed => q.at == Broken
      case LineNeedsMore => InLine(q.at)
      case LineOk(n, next) => q == FeedAll(State(g, AfterLine(n)), s[next..])
  {
    if src < |s| {
      FeedAt(State(g, SizeStart), s, src);
      if s[src] == CR || s[src] == SEMI {
        Stays(State(g, NoSize), s[src + 1..]);
      } else {
        FeedAt(State(g, Digits(0)), s, src);
        DigitsFeed(g, s, src, 0);
        var r := ScanSize(s, src, 0);
        if r.Size? && r.end < |s| {
          SizeEndFeeds(g, s, r.end, r.size);
          var cr := IndexOf(s, CR, r.end);
          if cr < |s| { ExtCrFeeds(g, s, cr, r.size); }
        }
      }
    }
  }

  // ---------------------------------------------------------------- chunk data

  lemma {:induction false} DataFeeds(g: Bytes, s: Bytes, i: nat, n: nat)
    requires i <= |s| && n >= 1
    ensures var q := FeedAll(State(g, Data(n)), s[i..]);
      if i + n <= |s| then q == FeedAll(State(g + s[i..i + n], DataEnd), s[i + n..])
      else q == State(g + s[i..], Data(n - (|s| - i)))
    decreases n
  {
    if i == |s| {
      assert g + s[i..] == g;
    } else {
      FeedAt(State(g, Data(n)), s, i);
      var g1 := g + [s[i]];
      if n == 1 {
        assert s[i..i + 1] == [s[i]];
      } else {
        DataFeeds(g1, s, i + 1, n - 1);
        if i + n <= |s| {
          assert g1 + s[i + 1..i + n] == g + s[i..i + n];
        } else {
          assert g1 + s[i + 1..] == g + s[i..];
        }
      }
    }
  }

  /** The CRLF after the data. */
  lemma DataEndFeeds(g: Bytes, s: Bytes, i: nat)
    requires i <= |s|
    ensures var q := FeedAll(State(g, DataEnd), s[i..]);
      if i + 2 > |s| then q.at in {DataEnd, DataCr, NoCr}
      else if CrlfAt(s, i) then q == FeedAll(State(g, SizeStart), s[i + 2..])
      else q.at == Broken
  {
    if i < |s| {
      FeedAt(State(g, DataEnd), s, i);
      if i + 1 < |s| {
        var q := Feed(State(g, DataEnd), s[i]);
        FeedAt(q, s, i + 1);
        if !CrlfAt(s, i) { Stays(Feed(q, s[i + 1]), s[i + 2..]); }
      }
    }
  }

  // ---------------------------------------------------------------- the trailer

  ghost predicate HasBlank(s: Bytes) { exists k: nat :: IsBlank(s, k) }

  /** Bytes in front in which no blank line starts change nothing. */
  lemma BlankBehind(x: Bytes, s: Bytes)
    requires forall k: nat :: k < |x| ==> !IsBlank(x + s, k)
    ensures HasBlank(x + s) <==> HasBlank(s)
  {
    if k: nat :| IsBlank(s, k) { assert IsBlank(x + s, |x| + k); }
    if k: nat :| IsBlank(x + s, k) { assert IsBlank(s, k - |x|); }
  }

  /** The automaton of the trailer searches for a blank line. */
  lemma {:induction false} TrailerFeeds(g: Bytes, s: Bytes, matched: nat)
    requires matched <= 3
    ensures var q := FeedAll(State(g, Trailer(matched)), s);
      q == State(g, q.at) &&
      if HasBlank(BLANK[..matched] + s) then q.at == Complete
      else q.at.Trailer? && q.at.matched <= 3
    decreases |s|
  {
    var u := BLANK[..matched] + s;
    if s == [] {
      assert |u| <= 3;
    } else {
      var q := Feed(State(g, Trailer(matched)), s[0]);
      if q.at == Complete {
        assert IsBlank(u, 0);
        Stays(q, s[1..]);
      } else {
        TrailerFeeds(g, s[1..], q.at.matched);
        TrailerShift(s, matched, q.at.matched);
      }
    }
  }

  /** What is matched after a byte is the longest end that may begin a blank line. */
  lemma NoBlankBefore(s: Bytes, matched: nat, next: nat, k: nat)
    requires s != [] && matched <= 3 && AfterTrailer(matched, s[0]) == Trailer(next)
    requires k + next < matched + 1
    ensures !IsBlank(BLANK[..matched] + s, k)
  {
    var u := BLANK[..matched] + s;
    assert u[matched] == s[0];
    assert forall i :: 0 <= i < matched ==> u[i] == BLANK[i];
  }

  lemma TrailerShift(s: Bytes, matched: nat, next: nat)
    requires s != [] && matched <= 3 && AfterTrailer(matched, s[0]) == Trailer(next)
    ensures next <= 3
    ensures HasBlank(BLANK[..matched] + s) <==> HasBlank(BLANK[..next] + s[1..])
  {
    hide HasBlank, IsBlank;
    var u, v := BLANK[..matched] + s, BLANK[..next] + s[1..];
    var x := u[..matched + 1 - next];
    SameEnd(s, matched, next);
    forall k: nat | k < |x| ensures !IsBlank(x + v, k) { NoBlankBefore(s, matched, next, k); }
    BlankBehind(x, v);
  }

  lemma SameEnd(s: Bytes, matched: nat, next: nat)
    requires s != [] && matched <= 3 && AfterTrailer(matched, s[0]) == Trailer(next)
    ensures next <= matched + 1 && next <= 3
    ensures var u := BLANK[..matched] + s;
      u == u[..matched + 1 - next] + (BLANK[..next] + s[1..])
  {
    var u := BLANK[..matched] + s;
    assert u[matched] == s[0] && u[matched + 1..] == s[1..];
    assert u[matched + 1 - next..matched + 1] == BLANK[..next];
    assert u == u[..matched + 1 - next] + u[matched + 1 - next..matched + 1] + u[matched + 1..];
  }

  lemma TrailerEndsFed(g: Bytes, s: Bytes, t: nat)
    requires t <= |s|
    ensures var q := FeedAll(State(g, Trailer(2)), s[t..]);
      q == State(g, q.at) && if TrailerEnds(s, t) then q.at == Complete else q.at.Trailer?
  {
    var w := s[t..];
    TrailerFeeds(g, w, 2);
    TrailerOkEnds(s, t);
    var u := BLANK[..2] + w;
    assert u == CRLF + w;
    if HasBlank(u) {
      var k: nat :| IsBlank(u, k);
      if k == 0 {
        assert w[..2] == CRLF;
      } else {
        assert IsBlank(w, k - 2);
      }
    }
    if TrailerOk(w) {
      if |w| >= 2 && w[..2] == CRLF {
        assert IsBlank(u, 0);
      } else {
        var k: nat :| IsBlank(w, k);
        assert IsBlank(u, k + 2);
      }
    }
  }

  // ---------------------------------------------------------------- the decoder

  lemma PieceFeeds(g: Bytes, s: Bytes, src: nat)
    requires src <= |s|
    ensures var r, q := PieceAt(s, src), FeedAll(State(g, SizeStart), s[src..]);
      match r
      case PieceMalformed => q.at == Broken
      case PieceNeedsMore => q.at != Broken && q.at != Complete
      case LastChunk => q == State(g, Complete)
      case DataChunk(d, n) => q == FeedAll(State(g + s[d..d + n], SizeStart), s[d + n + 2..])
  {
    hide SizeLine, FeedAll, TrailerEnds;
    LineFeeds(g, s, src);
    var line := SizeLine(s, src);
    if line.LineOk? {
      var d, n := line.next, line.size;
      if n == 0 {
        TrailerEndsFed(g, s, d);
      } else {
        DataFeeds(g, s, d, n);
        if d + n <= |s| { DataEndFeeds(g + s[d..d + n], s, d + n); }
      }
    }
  }

  lemma {:induction false} StreamFrom(g: Bytes, s: Bytes, src: nat)
    requires src <= |s|
    ensures Verdict(FeedAll(State(g, SizeStart), s[src..])) == Prefixed(g, Decode(s, src))
    ensures var p := Whole(s, src);
      FeedAll(State(g, SizeStart), s[src..]) == FeedAll(State(g + p.got, SizeStart), s[p.at..])
    decreases |s| - src
  {
    hide PieceAt, FeedAll;
    PieceFeeds(g, s, src);
    var piece := PieceAt(s, src);
    if piece.DataChunk? {
      var d, n := piece.from, piece.n;
      var data := s[d..d + n];
      StreamFrom(g + data, s, d + n + 2);
      PrefixedTwice(g, data, Decode(s, d + n + 2));
      assert g + data + Whole(s, d + n + 2).got == g + (data + Whole(s, d + n + 2).got);
    } else {
      assert g + [] == g;
    }
  }

  /** Byte by byte the automaton comes to the verdict of the decoder. */
  lemma StreamDecodes(s: Bytes)
    ensures Verdict(FeedAll(BEGIN, s)) == Decode(s, 0)
    ensures FeedAll(BEGIN, s) == FeedAll(State(Whole(s, 0).got, SizeStart), s[Whole(s, 0).at..])
  {
    hide FeedAll, Decode, Whole;
    StreamFrom([], s, 0);
    assert s[0..] == s && [] + Whole(s, 0).got == Whole(s, 0).got;
    PrefixedNothing(Decode(s, 0));
  }

  // ---------------------------------------------------------------- which states go on alike

  predicate Ok(q: State) {
    (q.at.Data? ==> q.at.left >= 1) && (q.at.Trailer? ==> q.at.matched <= 3)
  }

  lemma {:induction false} FeedAllOk(q: State, s: Bytes)
    requires Ok(q)
    ensures Ok(FeedAll(q, s))
    decreases |s|
  {
    if s != [] { FeedAllOk(Feed(q, s[0]), s[1..]); }
  }

  /** No bytes complete these: what was decoded cannot be returned any more. */
  predicate Dead(at: Control) { at.Broken? || at.NoSize? || at.NoCr? }

  function Norm(q: State): State { if Dead(q.at) then q.(got := []) else q }

  lemma {:induction false} SameNormGoesOn(q: State, r: State, t: Bytes)
    requires Norm(q) == Norm(r)
    ensures Verdict(FeedAll(q, t)) == Verdict(FeedAll(r, t))
    decreases |t|
  {
    if t != [] { SameNormGoesOn(Feed(q, t[0]), Feed(r, t[0]), t[1..]); }
  }

  function Zeros(n: nat): (z: Bytes)
    ensures |z| == n
  {
    seq(n, i => 0)
  }

  /** Bytes that complete the body, and the data they add. */
  function LineEnd(v: nat): Bytes { if v == 0 then CRLF else Zeros(v) + CRLF + LAST_CHUNK }

  function Ending(at: Control): Bytes {
    match at
    case SizeStart => LAST_CHUNK
    case Digits(v) => CRLF + LineEnd(v)
    case Ext(v) => CRLF + LineEnd(v)
    case ExtCr(v) => [LF] + LineEnd(v)
    case Data(left) => Zeros(left) + CRLF + LAST_CHUNK
    case DataEnd => CRLF + LAST_CHUNK
    case DataCr => [LF] + LAST_CHUNK
    case Trailer(_) => BLANK
    case _ => []
  }

  function Added(at: Control): Bytes {
    match at
    case Digits(v) => Zeros(v)
    case Ext(v) => Zeros(v)
    case ExtCr(v) => Zeros(v)
    case Data(left) => Zeros(left)
    case _ => []
  }

  lemma Feed1(q: State, a: byte)
    ensures FeedAll(q, [a]) == Feed(q, a)
  {
    hide Feed;
    assert [a][1..] == [];
  }

  lemma Feed2(q: State, a: byte, b: byte)
    ensures FeedAll(q, [a, b]) == Feed(Feed(q, a), b)
  {
    hide Feed;
    assert [a, b][1..] == [b];
    Feed1(Feed(q, a), b);
  }

  lemma Feed3(q: State, a: byte, b: byte, c: byte)
    ensures FeedAll(q, [a, b, c]) == Feed(Feed(Feed(q, a), b), c)
  {
    hide Feed;
    assert [a, b, c][1..] == [b, c];
    Feed2(Feed(q, a), b, c);
  }

  lemma FeedBlank(q: State)
    ensures FeedAll(q, BLANK) == Feed(Feed(Feed(Feed(q, CR), LF), CR), LF)
  {
    hide Feed;
    assert BLANK[1..] == [LF, CR, LF];
    Feed3(Feed(q, CR), LF, CR, LF);
  }

  lemma FeedLast(g: Bytes)
    ensures FeedAll(State(g, SizeStart), LAST_CHUNK) == State(g, Complete)
  {
    assert LAST_CHUNK[1..] == BLANK;
    FeedBlank(State(g, Digits(0)));
  }

  lemma EndOfData(g: Bytes)
    ensures FeedAll(State(g, DataEnd), CRLF + LAST_CHUNK) == State(g, Complete)
  {
    FeedConcat(State(g, DataEnd), CRLF, LAST_CHUNK);
    Feed2(State(g, DataEnd), CR, LF);
    FeedLast(g);
  }

  lemma DataEnds(g: Bytes, n: nat)
    requires n >= 1
    ensures FeedAll(State(g, Data(n)), Zeros(n) + CRLF + LAST_CHUNK)
      == State(g + Zeros(n), Complete)
  {
    var u := Zeros(n) + CRLF + LAST_CHUNK;
    assert u[0..] == u && u[0..n] == Zeros(n) && u[n..] == CRLF + LAST_CHUNK;
    DataFeeds(g, u, 0, n);
    EndOfData(g + Zeros(n));
  }

  lemma LineEnds(g: Bytes, v: nat)
    ensures FeedAll(State(g, AfterLine(v)), LineEnd(v)) == State(g + Zeros(v), Complete)
  {
    if v == 0 {
      Feed2(State(g, Trailer(2)), CR, LF);
      assert g + Zeros(0) == g;
    } else {
      DataEnds(g, v);
    }
  }

  lemma Ends(q: State)
    requires Ok(q) && !Dead(q.at)
    ensures FeedAll(q, Ending(q.at)) == State(q.got + Added(q.at), Complete)
  {
    var g := q.got;
    assert g + [] == g;
    match q.at {
      case SizeStart => FeedLast(g);
      case Digits(v) => FeedConcat(q, CRLF, LineEnd(v)); Feed2(q, CR, LF); LineEnds(g, v);
      case Ext(v) => FeedConcat(q, CRLF, LineEnd(v)); Feed2(q, CR, LF); LineEnds(g, v);
      case ExtCr(v) => FeedConcat(q, [LF], LineEnd(v)); Feed1(q, LF); LineEnds(g, v);
      case Data(left) => DataEnds(g, left);
      case DataEnd => EndOfData(g);
      case DataCr => FeedConcat(q, [LF], LAST_CHUNK); Feed1(q, LF); FeedLast(g);
      case Trailer(_) => FeedBlank(q);
      case Complete =>
    }
  }

  predicate Differ(q: State, r: State, t: Bytes) {
    Verdict(FeedAll(q, t)) != Verdict(FeedAll(r, t))
  }

  /** At the same place, with other data: the bytes that complete both give other data. */
  lemma DataDiffers(q: State, r: State) returns (t: Bytes)
    requires Ok(q) && q.at == r.at && !Dead(q.at) && q.got != r.got
    ensures Differ(q, r, t)
  {
    t := Ending(q.at);
    Ends(q);
    Ends(r);
    hide FeedAll, Ending, Added;
    var x := Added(q.at);
    if q.got + x == r.got + x { SameFront(q.got, r.got, x); }
  }

  lemma SameFront(a: Bytes, b: Bytes, x: Bytes)
    requires a + x == b + x
    ensures a == b
  {
    assert |a| == |b|;
    assert a == (a + x)[..|a|] == (b + x)[..|b|] == b;
  }

  /** After `left` bytes of data two line feeds are malformed. */
  lemma DataThenLf(q: State, r: State) returns (t: Bytes)
    requires q.at.Data? && q.at.left >= 1
    requires r.at.NoSize? || (r.at.Data? && r.at.left > q.at.left)
    ensures Differ(q, r, t)
  {
    var n := q.at.left;
    t := Zeros(n) + [LF, LF];
    assert t[0..] == t && t[0..n] == Zeros(n) && t[n..] == [LF, LF];
    DataFeeds(q.got, t, 0, n);
    Feed2(State(q.got + Zeros(n), DataEnd), LF, LF);
    if r.at.NoSize? {
      Stays(r, t);
    } else {
      assert q == State(q.got, Data(n));
      FeedConcat(r, Zeros(n), [LF, LF]);
      DataFeeds(r.got, Zeros(n), 0, r.at.left);
      assert Zeros(n)[0..] == Zeros(n);
      Feed2(FeedAll(r, Zeros(n)), LF, LF);
    }
  }

  lemma DifferAfter(q: State, r: State, p: Bytes, t: Bytes)
    requires Differ(FeedAll(q, p), FeedAll(r, p), t)
    ensures Differ(q, r, p + t)
  {
    FeedConcat(q, p, t);
    FeedConcat(r, p, t);
  }

  /** Chunks of different sizes, or a chunk and the trailer. */
  lemma LinesDiffer(q: State, r: State) returns (t: Bytes)
    requires exists v: nat, w: nat :: v < w && q.at == AfterLine(v) && r.at == AfterLine(w)
    ensures Differ(q, r, t)
  {
    if q.at.Trailer? {
      t := CRLF;
      Feed2(q, CR, LF);
      Feed2(r, CR, LF);
    } else {
      t := DataThenLf(q, r);
    }
  }

  /** Different sizes in the same place of a size line. */
  lemma SizesDiffer(q: State, r: State) returns (t: Bytes)
    requires (q.at.Digits? && r.at.Digits?) || (q.at.Ext? && r.at.Ext?) || (q.at.ExtCr? && r.at.ExtCr?)
    requires q.at.v < r.at.v
    ensures Differ(q, r, t)
  {
    var p: Bytes := if q.at.ExtCr? then [LF] else CRLF;
    Feed1(q, LF);
    Feed1(r, LF);
    Feed2(q, CR, LF);
    Feed2(r, CR, LF);
    var q1, r1 := FeedAll(q, p), FeedAll(r, p);
    assert q1.at == AfterLine(q.at.v) && r1.at == AfterLine(r.at.v);
    t := LinesDiffer(q1, r1);
    DifferAfter(q, r, p, t);
    t := p + t;
  }

  /** At different places a few short texts tell them apart, but for these pairs. */
  predicate Alike(a: Control, b: Control) {
    (a.Digits? && b.Digits?) || (a.Ext? && b.Ext?) || (a.ExtCr? && b.ExtCr?) ||
    (a.Data? && b.Data?) || (a.Data? && b.NoSize?) || (a.NoSize? && b.Data?)
  }

  function Kind(v: Chunked): nat {
    match v
    case NeedMore => 0
    case Malformed => 1
    case Decoded(_) => 2
  }

  /** The kinds of verdict after nothing, LF, CR, CR CR, LF LF, CR LF, LF CR LF and a blank line. */
  datatype Kinds = Kinds(none: nat, lf: nat, cr: nat, crCr: nat, lfLf: nat, crLf: nat,
                         lfCrLf: nat, blank: nat)

  function KindsAt(at: Control): Kinds {
    match at
    case SizeStart => Kinds(0, 1, 0, 0, 1, 0, 1, 0)
    case Digits(v) => Kinds(0, 1, 0, 1, 1, 0, 1, if v == 0 then 2 else 0)
    case Ext(v) => Kinds(0, 0, 0, 1, 0, 0, 0, if v == 0 then 2 else 0)
    case ExtCr(v) => Kinds(0, 0, 1, 1, 0, 1, if v == 0 then 2 else 0, 1)
    case Data(left) => Kinds(0, 0, 0, 0, 0, 0, 0, if left <= 1 then 1 else 0)
    case DataEnd => Kinds(0, 0, 0, 1, 1, 0, 1, 0)
    case DataCr => Kinds(0, 0, 1, 1, 1, 1, 0, 1)
    case Trailer(m) =>
      if m == 1 then Kinds(0, 0, 0, 0, 0, 0, 2, 2)
      else if m == 2 then Kinds(0, 0, 0, 0, 0, 2, 0, 2)
      else if m == 3 then Kinds(0, 2, 0, 0, 2, 0, 2, 2)
      else Kinds(0, 0, 0, 0, 0, 0, 0, 2)
    case Complete => Kinds(2, 2, 2, 2, 2, 2, 2, 2)
    case Broken => Kinds(1, 1, 1, 1, 1, 1, 1, 1)
    case NoSize => Kinds(0, 0, 0, 0, 0, 0, 0, 0)
    case NoCr => Kinds(0, 1, 1, 1, 1, 1, 1, 1)
  }

  lemma KindsDiffer(a: Control, b: Control)
    requires a != b && !Alike(a, b)
    requires (a.Trailer? ==> a.matched <= 3) && (b.Trailer? ==> b.matched <= 3)
    ensures KindsAt(a) != KindsAt(b)
  {
  }

  function AfterLf(at: Control): Control {
    match at
    case SizeStart => Broken
    case Digits(_) => Broken
    case ExtCr(v) => AfterLine(v)
    case Data(left) => if left <= 1 then DataEnd else Data(left - 1)
    case DataEnd => NoCr
    case DataCr => SizeStart
    case Trailer(m) => if m == 1 then Trailer(2) else if m == 3 then Complete else Trailer(0)
    case NoCr => Broken
    case _ => at
  }

  function AfterCr(at: Control): Control {
    match at
    case SizeStart => NoSize
    case Digits(v) => ExtCr(v)
    case Ext(v) => ExtCr(v)
    case ExtCr(_) => Broken
    case Data(left) => if left <= 1 then DataEnd else Data(left - 1)
    case DataEnd => DataCr
    case DataCr => Broken
    case Trailer(m) => if m == 2 then Trailer(3) else Trailer(1)
    case NoCr => Broken
    case _ => at
  }

  lemma LineBytes(q: State)
    ensures Feed(q, LF).at == AfterLf(q.at) && Feed(q, CR).at == AfterCr(q.at)
  {
  }

  lemma KindsOfOne(q: State)
    requires Ok(q)
    ensures Kind(Verdict(q)) == KindsAt(q.at).none
    ensures Kind(Verdict(FeedAll(q, [LF]))) == KindsAt(q.at).lf
    ensures Kind(Verdict(FeedAll(q, [CR]))) == KindsAt(q.at).cr
  {
    hide FeedAll, Feed;
    Feed1(q, LF);
    Feed1(q, CR);
    LineBytes(q);
  }

  function KindAt(at: Control): nat { if at.Complete? then 2 else if at.Broken? then 1 else 0 }

  lemma KindIs(q: State)
    ensures Kind(Verdict(q)) == KindAt(q.at)
  {
  }

  lemma TwoSame(at: Control)
    requires at.Trailer? ==> at.matched <= 3
    ensures KindAt(AfterCr(AfterCr(at))) == KindsAt(at).crCr
    ensures KindAt(AfterLf(AfterLf(at))) == KindsAt(at).lfLf
  {
    match at {
      case SizeStart =>
      case Digits(_) =>
      case Ext(_) =>
      case ExtCr(_) =>
      case Data(_) =>
      case DataEnd =>
      case DataCr =>
      case Trailer(_) =>
      case Complete =>
      case Broken =>
      case NoSize =>
      case NoCr =>
    }
  }

  lemma LineEndKind(at: Control)
    requires at.Trailer? ==> at.matched <= 3
    ensures KindAt(AfterLf(AfterCr(at))) == KindsAt(at).crLf
  {
    match at {
      case SizeStart =>
      case Digits(_) =>
      case Ext(_) =>
      case ExtCr(_) =>
      case Data(_) =>
      case DataEnd =>
      case DataCr =>
      case Trailer(_) =>
      case Complete =>
      case Broken =>
      case NoSize =>
      case NoCr =>
    }
  }

  lemma LfLineEndKind(at: Control)
    requires at.Trailer? ==> at.matched <= 3
    ensures KindAt(AfterLf(AfterCr(AfterLf(at)))) == KindsAt(at).lfCrLf
  {
    match at {
      case SizeStart =>
      case Digits(_) =>
      case Ext(_) =>
      case ExtCr(_) =>
      case Data(_) =>
      case DataEnd =>
      case DataCr =>
      case Trailer(_) =>
      case Complete =>
      case Broken =>
      case NoSize =>
      case NoCr =>
    }
  }

  lemma BlankKind(at: Control)
    requires at.Trailer? ==> at.matched <= 3
    ensures KindAt(AfterLf(AfterCr(AfterLf(AfterCr(at))))) == KindsAt(at).blank
  {
    match at {
      case SizeStart =>
      case Digits(_) =>
      case Ext(_) =>
      case ExtCr(_) =>
      case Data(_) =>
      case DataEnd =>
      case DataCr =>
      case Trailer(_) =>
      case Complete =>
      case Broken =>
      case NoSize =>
      case NoCr =>
    }
  }

  lemma KindsOfTwo(q: State)
    requires Ok(q)
    ensures Kind(Verdict(FeedAll(q, [CR, CR]))) == KindsAt(q.at).crCr
    ensures Kind(Verdict(FeedAll(q, [LF, LF]))) == KindsAt(q.at).lfLf
    ensures Kind(Verdict(FeedAll(q, [CR, LF]))) == KindsAt(q.at).crLf
  {
    hide FeedAll, Feed, Kind, Verdict, KindAt, KindsAt, AfterCr, AfterLf;
    TwoSame(q.at);
    LineEndKind(q.at);
    var r, w := Feed(q, CR), Feed(q, LF);
    Feed2(q, CR, CR);
    Feed2(q, LF, LF);
    Feed2(q, CR, LF);
    LineBytes(q);
    LineBytes(r);
    LineBytes(w);
    KindIs(Feed(r, CR));
    KindIs(Feed(r, LF));
    KindIs(Feed(w, LF));
  }

  lemma KindsOfMore(q: State)
    requires Ok(q)
    ensures Kind(Verdict(FeedAll(q, [LF, CR, LF]))) == KindsAt(q.at).lfCrLf
    ensures Kind(Verdict(FeedAll(q, BLANK))) == KindsAt(q.at).blank
  {
    hide FeedAll, Feed, Kind, Verdict, KindAt, KindsAt, AfterCr, AfterLf;
    LfLineEndKind(q.at);
    BlankKind(q.at);
    Feed3(q, LF, CR, LF);
    FeedBlank(q);
    LineBytes(q);
    var r := Feed(q, LF);
    LineBytes(r);
    LineBytes(Feed(r, CR));
    KindIs(Feed(Feed(r, CR), LF));
    var w := Feed(Feed(q, CR), LF);
    LineBytes(Feed(q, CR));
    LineBytes(w);
    LineBytes(Feed(w, CR));
    KindIs(Feed(Feed(w, CR), LF));
  }

  lemma ShortTexts(q: State, r: State) returns (t: Bytes)
    requires Ok(q) && Ok(r) && q.at != r.at && !Alike(q.at, r.at)
    ensures Differ(q, r, t)
  {
    KindsDiffer(q.at, r.at);
    KindsOfOne(q);
    KindsOfOne(r);
    KindsOfTwo(q);
    KindsOfTwo(r);
    KindsOfMore(q);
    KindsOfMore(r);
    assert FeedAll(q, []) == q && FeedAll(r, []) == r;
    hide FeedAll, Verdict, KindsAt, Alike;
    var x, y := KindsAt(q.at), KindsAt(r.at);
    t := if x.none != y.none then []
      else if x.lf != y.lf then [LF]
      else if x.cr != y.cr then [CR]
      else if x.crCr != y.crCr then [CR, CR]
      else if x.lfLf != y.lfLf then [LF, LF]
      else if x.crLf != y.crLf then [CR, LF]
      else if x.lfCrLf != y.lfCrLf then [LF, CR, LF]
      else BLANK;
  }

  lemma Distinguished(q: State, r: State) returns (t: Bytes)
    requires Ok(q) && Ok(r) && Norm(q) != Norm(r)
    ensures Differ(q, r, t)
  {
    hide FeedAll, Verdict;
    if q.at == r.at {
      t := DataDiffers(q, r);
    } else if !Alike(q.at, r.at) {
      t := ShortTexts(q, r);
    } else if q.at.NoSize? || (q.at.Data? && r.at.Data? && r.at.left < q.at.left) {
      t := DataThenLf(r, q);
    } else if q.at.Data? {
      t := DataThenLf(q, r);
    } else if q.at.v < r.at.v {
      t := SizesDiffer(q, r);
    } else {
      t := SizesDiffer(r, q);
    }
  }

  /**
   Two bodies, however different their bytes, are decoded alike with every continuation exactly
   when the automaton comes to the same state on both, but for data that cannot be returned.
   */
  lemma GoesOnAlikeIff(b: Bytes, s: Bytes)
    ensures (forall t: Bytes :: Decode(b + t, 0) == Decode(s + t, 0)) <==>
      Norm(FeedAll(BEGIN, b)) == Norm(FeedAll(BEGIN, s))
  {
    hide FeedAll, Feed, Decode, Norm, Verdict, Ok;
    var q, r := FeedAll(BEGIN, b), FeedAll(BEGIN, s);
    BeginOk(b);
    BeginOk(s);
    if Norm(q) == Norm(r) {
      forall t: Bytes ensures Decode(b + t, 0) == Decode(s + t, 0) {
        SameNormGoesOn(q, r, t);
        Continued(b, t);
        Continued(s, t);
      }
    } else {
      var t := Distinguished(q, r);
      Continued(b, t);
      Continued(s, t);
      assert Decode(b + t, 0) != Decode(s + t, 0);
    }
  }

  lemma BeginOk(s: Bytes)
    ensures Ok(FeedAll(BEGIN, s))
  {
    FeedAllOk(BEGIN, s);
  }

  lemma Continued(s: Bytes, t: Bytes)
    ensures Decode(s + t, 0) == Verdict(FeedAll(FeedAll(BEGIN, s), t))
  {
    hide Feed, FeedAll, Decode, Verdict;
    StreamDecodes(s + t);
    FeedConcat(BEGIN, s, t);
  }

  // ---------------------------------------------------------------- parsing a buffer again

  /**
   After a call on `s` the buffer holds Left(s). Parsing it again with whatever arrives goes on
   like the body that was received exactly when one pass over it comes to the state that `s` does.
   */
  lemma ReparseAgreesIff(s: Bytes)
    ensures (forall t: Bytes :: Decode(Left(s) + t, 0) == Decode(s + t, 0)) <==>
      Norm(FeedAll(BEGIN, Left(s))) == Norm(FeedAll(BEGIN, s))
  {
    GoesOnAlikeIff(Left(s), s);
  }

  /** So it does when the same whole chunks are found in it. */
  lemma SameChunksAgree(s: Bytes, t: Bytes)
    requires Whole(Left(s), 0) == Whole(s, 0)
    ensures Decode(Left(s) + t, 0) == Decode(s + t, 0)
  {
    hide FeedAll, Decode, Whole;
    var b, p := Left(s), Whole(s, 0);
    assert b[p.at..] == s[p.at..];
    StreamDecodes(b);
    StreamDecodes(s);
    ReparseAgreesIff(s);
  }
}
