/**
 The chunked body decoder of src/http_response_parser.c: what it decodes, the chunk grammar of
 section 4.1 of RFC 7230 it accepts, and the decoder that compacts the body in place.
 */
module HttpChunked {
  import opened Common

  const CR: byte := 13
  const LF: byte := 10
  const SEMI: byte := 59
  const CRLF: Bytes := [CR, LF]
  const BLANK: Bytes := [CR, LF, CR, LF]
  /** OTLP_HTTP_RESP_MAX */
  const RESP_MAX: nat := 65536

  datatype Chunked = NeedMore | Malformed | Decoded(data: Bytes)

  // ---------------------------------------------------------------- searching

  /** The first place at or after `i` where `c` stands, or |s|. */
  function IndexOf(s: Bytes, c: byte, i: nat): (k: nat)
    requires i <= |s|
    ensures i <= k <= |s| && (k < |s| ==> s[k] == c)
    ensures forall j :: i <= j < k ==> s[j] != c
    decreases |s| - i
  {
    if i == |s| || s[i] == c then i else IndexOf(s, c, i + 1)
  }

  /** The first place at or after `i` where "\r\n\r\n" starts, or |s|. */
  function BlankLine(s: Bytes, i: nat): (k: nat)
    requires i <= |s|
    ensures i <= k <= |s| && (k < |s| ==> IsBlank(s, k))
    ensures forall j :: i <= j < k ==> !IsBlank(s, j)
    decreases |s| - i
  {
    if i == |s| || IsBlank(s, i) then i else BlankLine(s, i + 1)
  }

  predicate IsBlank(s: Bytes, k: nat) {
    k + 4 <= |s| && s[k] == CR && s[k + 1] == LF && s[k + 2] == CR && s[k + 3] == LF
  }

  lemma {:induction false} IndexOfExtends(s: Bytes, t: Bytes, c: byte, i: nat)
    requires i <= |s|
    ensures IndexOf(s + t, c, i) == IndexOf(s, c, i) || IndexOf(s, c, i) == |s|
    ensures IndexOf(s, c, i) == |s| ==> IndexOf(s + t, c, i) >= |s|
    decreases |s| - i
  {
    if i < |s| && s[i] != c { IndexOfExtends(s, t, c, i + 1); }
  }

  lemma {:induction false} IndexOfIs(s: Bytes, c: byte, i: nat, k: nat)
    requires i <= k <= |s| && (k < |s| ==> s[k] == c) && forall j :: i <= j < k ==> s[j] != c
    ensures IndexOf(s, c, i) == k
    decreases k - i
  {
    if i < k { IndexOfIs(s, c, i + 1, k); }
  }

  lemma BlankLineExtends(s: Bytes, t: Bytes, i: nat)
    requires i <= |s|
    ensures BlankLine(s, i) < |s| ==> BlankLine(s + t, i) == BlankLine(s, i)
  {
    var u := s + t;
    var k := BlankLine(s, i);
    var j := BlankLine(u, i);
    if k < |s| {
      assert forall x: nat :: x <= k ==> IsBlank(u, x) == IsBlank(s, x);
    }
  }

  // ---------------------------------------------------------------- size line

  predicate IsHex(c: byte) {
    48 <= c <= 57 || 97 <= c <= 102 || 65 <= c <= 70
  }

  function HexDigit(c: byte): (d: nat)
    requires IsHex(c)
    ensures d < 16
  {
    if c <= 57 then c - 48 else if c <= 70 then c - 55 else c - 87
  }

  predicate AllHex(s: Bytes) { forall i :: 0 <= i < |s| ==> IsHex(s[i]) }

  function HexValue(s: Bytes): (n: nat)
    requires AllHex(s)
  {
    if s == [] then 0 else HexValue(s[..|s| - 1]) * 16 + HexDigit(s[|s| - 1])
  }

  datatype SizeScan = BadSize | Size(end: nat, size: nat)

  predicate EndsSize(s: Bytes, i: nat)
    requires i <= |s|
  {
    i == |s| || s[i] == CR || s[i] == SEMI
  }

  /** The digits of a size line from `i` on, after digits that are worth `acc`. */
  function ScanSize(s: Bytes, i: nat, acc: nat): (r: SizeScan)
    requires i <= |s| && acc <= RESP_MAX
    ensures r.Size? ==> i <= r.end <= |s| && EndsSize(s, r.end) && r.size <= RESP_MAX
    decreases |s| - i
  {
    if EndsSize(s, i) then Size(i, acc)
    else if !IsHex(s[i]) then BadSize
    else
      var acc' := acc * 16 + HexDigit(s[i]);
      if acc' > RESP_MAX then BadSize else ScanSize(s, i + 1, acc')
  }

  lemma {:induction false} ScanSizeExtends(s: Bytes, t: Bytes, i: nat, acc: nat)
    requires i <= |s| && acc <= RESP_MAX
    ensures var r := ScanSize(s, i, acc);
      r.BadSize? || r.end < |s| ==> ScanSize(s + t, i, acc) == r
    decreases |s| - i
  {
    if !EndsSize(s, i) && IsHex(s[i]) {
      var acc' := acc * 16 + HexDigit(s[i]);
      if acc' <= RESP_MAX { ScanSizeExtends(s, t, i + 1, acc'); }
    }
  }

  lemma HexValueNext(s: Bytes, from: nat, i: nat)
    requires from <= i < |s| && AllHex(s[from..i]) && IsHex(s[i])
    ensures AllHex(s[from..i + 1])
    ensures HexValue(s[from..i + 1]) == HexValue(s[from..i]) * 16 + HexDigit(s[i])
  {
    assert s[from..i + 1][..i - from] == s[from..i];
    assert s[from..i + 1] == s[from..i] + [s[i]];
  }

  /** What a scan that stops has read: hex digits worth the value it returns. */
  lemma {:induction false} ScanSizeValue(s: Bytes, from: nat, i: nat, acc: nat)
    requires from <= i <= |s| && acc <= RESP_MAX
    requires AllHex(s[from..i]) && HexValue(s[from..i]) == acc
    ensures var r := ScanSize(s, i, acc);
      r.Size? ==>
        AllHex(s[from..r.end]) && HexValue(s[from..r.end]) == r.size
    decreases |s| - i
  {
    hide HexValue, AllHex;
    if !EndsSize(s, i) && IsHex(s[i]) {
      var acc' := acc * 16 + HexDigit(s[i]);
      if acc' <= RESP_MAX {
        HexValueNext(s, from, i);
        ScanSizeValue(s, from, i + 1, acc');
      }
    }
  }

  lemma {:induction false} HexValueGrows(s: Bytes, k: nat)
    requires k <= |s| && AllHex(s)
    ensures HexValue(s[..k]) <= HexValue(s)
  {
    if k < |s| {
      HexValueGrows(s[..|s| - 1], k);
      assert s[..|s| - 1][..k] == s[..k];
    } else {
      assert s[..k] == s;
    }
  }

  /** Digits within the cap, up to a place that ends a size, are all read. */
  lemma {:induction false} ScanSizeReads(s: Bytes, from: nat, i: nat, end: nat)
    requires from <= i <= end <= |s| && EndsSize(s, end)
    requires AllHex(s[from..end]) && HexValue(s[from..end]) <= RESP_MAX
    ensures AllHex(s[from..i]) && HexValue(s[from..i]) <= RESP_MAX
    ensures ScanSize(s, i, HexValue(s[from..i])) == Size(end, HexValue(s[from..end]))
    decreases end - i
  {
    hide HexValue;
    assert s[from..end][..i - from] == s[from..i];
    HexValueGrows(s[from..end], i - from);
    if i < end {
      assert s[i] == s[from..end][i - from];
      HexValueNext(s, from, i);
      ScanSizeReads(s, from, i + 1, end);
    }
  }

  // ---------------------------------------------------------------- chunks

  /** The size line at `src`, up to and with its CRLF. */
  datatype Line = LineNeedsMore | LineMalformed | LineOk(size: nat, next: nat)

  function SizeLine(s: Bytes, src: nat): (r: Line)
    requires src <= |s|
    ensures r.LineOk? ==> src + 3 <= r.next <= |s| && r.size <= RESP_MAX
  {
    match ScanSize(s, src, 0)
    case BadSize => LineMalformed
    case Size(e, size) =>
      if e == src || e >= |s| then LineNeedsMore
      else
        var cr := IndexOf(s, CR, e);
        if cr + 1 >= |s| then LineNeedsMore
        else if s[cr + 1] != LF then LineMalformed
        else LineOk(size, cr + 2)
  }

  lemma SizeLineExtends(s: Bytes, t: Bytes, src: nat)
    requires src <= |s|
    ensures SizeLine(s, src).LineNeedsMore? || SizeLine(s + t, src) == SizeLine(s, src)
  {
    ScanSizeExtends(s, t, src, 0);
    var r := ScanSize(s, src, 0);
    if r.Size? && src != r.end < |s| { IndexOfExtends(s, t, CR, r.end); }
  }

  /** After the last chunk: at once the final CRLF, or trailer lines up to a blank line. */
  predicate TrailerEnds(s: Bytes, t: nat)
    requires t <= |s|
  {
    |s| - t >= 2 && ((s[t] == CR && s[t + 1] == LF) || BlankLine(s, t) < |s|)
  }

  predicate CrlfAt(s: Bytes, i: nat)
    requires i + 2 <= |s|
  {
    s[i] == CR && s[i + 1] == LF
  }

  /** What stands at `src`: a whole chunk with `n` bytes of data at `from`, or the last chunk. */
  datatype Piece = PieceNeedsMore | PieceMalformed | LastChunk | DataChunk(from: nat, n: nat)

  function PieceAt(s: Bytes, src: nat): (r: Piece)
    requires src <= |s|
    ensures r.DataChunk? ==> src + 3 <= r.from && r.n > 0 && r.from + r.n + 2 <= |s|
  {
    match SizeLine(s, src)
    case LineNeedsMore => PieceNeedsMore
    case LineMalformed => PieceMalformed
    case LineOk(size, d) =>
      if size == 0 then
        if TrailerEnds(s, d) then LastChunk else PieceNeedsMore
      else if d + size + 2 > |s| then PieceNeedsMore
      else if !CrlfAt(s, d + size) then PieceMalformed
      else DataChunk(d, size)
  }

  lemma PieceAtExtends(s: Bytes, t: Bytes, src: nat)
    requires src <= |s|
    ensures PieceAt(s, src).PieceNeedsMore? || PieceAt(s + t, src) == PieceAt(s, src)
  {
    SizeLineExtends(s, t, src);
    var line := SizeLine(s, src);
    if line.LineOk? && line.size == 0 { BlankLineExtends(s, t, line.next); }
  }

  /** What is decoded from `src` on. */
  function Decode(s: Bytes, src: nat): (v: Chunked)
    requires src <= |s|
    decreases |s| - src
  {
    match PieceAt(s, src)
    case PieceNeedsMore => NeedMore
    case PieceMalformed => Malformed
    case LastChunk => Decoded([])
    case DataChunk(d, n) => Prefixed(s[d..d + n], Decode(s, d + n + 2))
  }

  function Prefixed(p: Bytes, v: Chunked): Chunked {
    if v.Decoded? then Decoded(p + v.data) else v
  }

  /** More bytes change the verdict only where it was that more are needed. */
  lemma {:induction false} DecodeExtends(s: Bytes, t: Bytes, src: nat)
    requires src <= |s|
    ensures Decode(s, src).NeedMore? || Decode(s + t, src) == Decode(s, src)
    decreases |s| - src
  {
    hide PieceAt;
    PieceAtExtends(s, t, src);
    var piece := PieceAt(s, src);
    if piece.DataChunk? {
      var d, n := piece.from, piece.n;
      assert (s + t)[d..d + n] == s[d..d + n];
      DecodeExtends(s, t, d + n + 2);
    }
  }

  // ---------------------------------------------------------------- grammar

  /** chunk = chunk-size [ chunk-ext ] CRLF chunk-data CRLF */
  datatype Chunk = Chunk(size: Bytes, ext: Bytes, data: Bytes)

  predicate ExtOk(ext: Bytes) { ext == [] || (ext[0] == SEMI && CR !in ext) }

  predicate SizeOk(size: Bytes, n: nat) { size != [] && AllHex(size) && HexValue(size) == n }

  predicate ChunkOk(c: Chunk) {
    SizeOk(c.size, |c.data|) && ExtOk(c.ext) && 0 < |c.data| <= RESP_MAX
  }

  predicate ChunksOk(cs: seq<Chunk>) { forall i :: 0 <= i < |cs| ==> ChunkOk(cs[i]) }

  function EncHead(size: Bytes, ext: Bytes): Bytes { size + ext + CRLF }

  function EncChunk(c: Chunk): Bytes { EncHead(c.size, c.ext) + c.data + CRLF }

  function EncChunks(cs: seq<Chunk>): Bytes {
    if cs == [] then [] else EncChunk(cs[0]) + EncChunks(cs[1..])
  }

  function ChunkData(cs: seq<Chunk>): Bytes {
    if cs == [] then [] else cs[0].data + ChunkData(cs[1..])
  }

  /** A trailer section with the CRLF that ends the body, and whatever follows. */
  ghost predicate TrailerOk(t: Bytes) {
    (|t| >= 2 && t[..2] == CRLF) || exists k: nat :: IsBlank(t, k)
  }

  /** A whole chunked body: chunks, the last chunk, the trailer. */
  datatype Body = Body(chunks: seq<Chunk>, lastSize: Bytes, lastExt: Bytes, trailer: Bytes)

  ghost predicate BodyOk(b: Body) {
    ChunksOk(b.chunks) && SizeOk(b.lastSize, 0) && ExtOk(b.lastExt) && TrailerOk(b.trailer)
  }

  function EncBody(b: Body): Bytes {
    EncChunks(b.chunks) + (EncHead(b.lastSize, b.lastExt) + b.trailer)
  }

  /** A size line that follows the grammar is read to its value and its end. */
  lemma SizeLineReads(s: Bytes, src: nat, size: Bytes, ext: Bytes, n: nat)
    requires src <= |s| && SizeOk(size, n) && n <= RESP_MAX && ExtOk(ext)
    requires EncHead(size, ext) <= s[src..]
    ensures SizeLine(s, src) == LineOk(n, src + |EncHead(size, ext)|)
  {
    var h := EncHead(size, ext);
    var e := src + |size|;
    var cr := e + |ext|;
    assert forall i :: 0 <= i < |h| ==> s[src + i] == s[src..][i] == h[i];
    assert s[src..e] == size;
    assert s[e..cr] == ext;
    assert forall j :: e <= j < cr ==> s[j] == ext[j - e];
    assert s[cr] == h[|size| + |ext|] == CR && s[cr + 1] == h[|size| + |ext| + 1] == LF;
    assert EndsSize(s, e);
    assert s[src..src] == [];
    ScanSizeReads(s, src, src, e);
    IndexOfIs(s, CR, e, cr);
  }

  lemma TrailerOkEnds(s: Bytes, t: nat)
    requires t <= |s|
    ensures TrailerEnds(s, t) <==> TrailerOk(s[t..])
  {
    var tail := s[t..];
    assert forall k: nat :: k + 4 <= |tail| ==> IsBlank(tail, k) == IsBlank(s, t + k);
    if |tail| >= 2 { assert tail[..2] == [s[t], s[t + 1]]; }
    if BlankLine(s, t) < |s| { assert IsBlank(tail, BlankLine(s, t) - t); }
    if k: nat :| IsBlank(tail, k) { assert IsBlank(s, t + k); }
  }

  lemma ChunkReads(s: Bytes, src: nat, c: Chunk, rest: Bytes)
    requires src <= |s| && ChunkOk(c) && s[src..] == EncChunk(c) + rest
    ensures var from := src + |EncHead(c.size, c.ext)|;
      PieceAt(s, src) == DataChunk(from, |c.data|) && s[from..from + |c.data|] == c.data
    ensures src + |EncChunk(c)| == src + |EncHead(c.size, c.ext)| + |c.data| + 2 <= |s|
    ensures s[src + |EncChunk(c)|..] == rest
  {
    hide SizeLine, EncHead, SizeOk, ExtOk;
    var h := EncHead(c.size, c.ext);
    assert s[src..] == h + (c.data + CRLF + rest);
    SizeLineReads(s, src, c.size, c.ext, |c.data|);
    var d, n := src + |h|, |c.data|;
    assert s[d..] == c.data + CRLF + rest;
    assert s[d..d + n] == c.data;
    assert s[d + n] == s[d..][n] == CR && s[d + n + 1] == s[d..][n + 1] == LF;
    assert s[d + n + 2..] == rest;
  }

  lemma ChunkDecodes(s: Bytes, src: nat, c: Chunk, rest: Bytes)
    requires src <= |s| && ChunkOk(c) && s[src..] == EncChunk(c) + rest
    ensures src + |EncChunk(c)| <= |s| && s[src + |EncChunk(c)|..] == rest
    ensures Decode(s, src) == Prefixed(c.data, Decode(s, src + |EncChunk(c)|))
  {
    hide PieceAt, ChunkOk, EncChunk, EncHead;
    ChunkReads(s, src, c, rest);
  }

  lemma LastReads(s: Bytes, src: nat, size: Bytes, ext: Bytes, trailer: Bytes)
    requires src <= |s| && SizeOk(size, 0) && ExtOk(ext) && TrailerOk(trailer)
    requires s[src..] == EncHead(size, ext) + trailer
    ensures PieceAt(s, src) == LastChunk
  {
    hide SizeLine, EncHead, SizeOk, ExtOk, TrailerOk, TrailerEnds;
    SizeLineReads(s, src, size, ext, 0);
    var t := src + |EncHead(size, ext)|;
    assert s[t..] == trailer;
    TrailerOkEnds(s, t);
  }

  /** Whatever follows the grammar decodes to the concatenated chunk data. */
  lemma {:induction false} GrammarDecodes(s: Bytes, src: nat, b: Body)
    requires src <= |s| && BodyOk(b) && s[src..] == EncBody(b)
    ensures Decode(s, src) == Decoded(ChunkData(b.chunks))
    decreases |b.chunks|
  {
    hide ChunkOk, EncHead, SizeOk, ExtOk, EncChunk, TrailerOk, PieceAt;
    if b.chunks == [] {
      assert s[src..] == EncHead(b.lastSize, b.lastExt) + b.trailer;
      LastReads(s, src, b.lastSize, b.lastExt, b.trailer);
    } else {
      hide Decode;
      var c, rest := b.chunks[0], b.(chunks := b.chunks[1..]);
      assert s[src..] == EncChunk(c) + EncBody(rest);
      ChunkDecodes(s, src, c, EncBody(rest));
      GrammarDecodes(s, src + |EncChunk(c)|, rest);
    }
  }

  /** The size line that was read: its digits and its extension. */
  lemma SizeLineRead(s: Bytes, src: nat) returns (size: Bytes, ext: Bytes)
    requires src <= |s| && SizeLine(s, src).LineOk?
    ensures SizeOk(size, SizeLine(s, src).size) && ExtOk(ext)
    ensures s[src..SizeLine(s, src).next] == EncHead(size, ext)
  {
    assert s[src..src] == [];
    ScanSizeValue(s, src, src, 0);
    var e := ScanSize(s, src, 0).end;
    var cr := IndexOf(s, CR, e);
    size, ext := s[src..e], s[e..cr];
    assert forall j :: 0 <= j < |ext| ==> ext[j] == s[e + j];
  }

  /** The whole chunk that was read at `src`. */
  lemma ChunkRead(s: Bytes, src: nat) returns (c: Chunk)
    requires src <= |s| && PieceAt(s, src).DataChunk?
    ensures ChunkOk(c)
    ensures var d, n := PieceAt(s, src).from, PieceAt(s, src).n;
      c.data == s[d..d + n] && s[src..d + n + 2] == EncChunk(c)
  {
    hide SizeLine, EncHead, SizeOk, ExtOk;
    var size, ext := SizeLineRead(s, src);
    var n, d := SizeLine(s, src).size, SizeLine(s, src).next;
    c := Chunk(size, ext, s[d..d + n]);
    assert s[d..d + n + 2] == c.data + CRLF;
    assert s[src..d + n + 2] == s[src..d] + s[d..d + n + 2];
  }

  /** The last chunk and the trailer that were read at `src`. */
  lemma LastRead(s: Bytes, src: nat) returns (b: Body)
    requires src <= |s| && PieceAt(s, src).LastChunk?
    ensures BodyOk(b) && s[src..] == EncBody(b) && b.chunks == []
  {
    hide SizeLine, EncHead, SizeOk, ExtOk, TrailerEnds, TrailerOk;
    var size, ext := SizeLineRead(s, src);
    var d := SizeLine(s, src).next;
    TrailerOkEnds(s, d);
    b := Body([], size, ext, s[d..]);
    assert s[src..] == s[src..d] + s[d..];
  }

  /** Whatever is decoded follows the grammar. */
  lemma {:induction false} DecodedIsGrammar(s: Bytes, src: nat) returns (b: Body)
    requires src <= |s| && Decode(s, src).Decoded?
    ensures BodyOk(b) && s[src..] == EncBody(b)
    ensures Decode(s, src).data == ChunkData(b.chunks)
    decreases |s| - src
  {
    hide PieceAt, EncHead, SizeOk, ExtOk, TrailerOk, EncChunk, ChunkOk;
    if PieceAt(s, src).LastChunk? {
      b := LastRead(s, src);
    } else {
      var next := PieceAt(s, src).from + PieceAt(s, src).n + 2;
      var c := ChunkRead(s, src);
      var rest := DecodedIsGrammar(s, next);
      b := rest.(chunks := [c] + rest.chunks);
      assert s[src..] == s[src..next] + s[next..];
      assert b.chunks[1..] == rest.chunks;
      assert EncBody(b) == EncChunk(c) + EncBody(rest);
    }
  }

  /** The decoder accepts exactly the chunked bodies of the grammar, and yields their data. */
  lemma DecodedIff(s: Bytes, data: Bytes)
    ensures Decode(s, 0) == Decoded(data) <==>
      exists b: Body :: BodyOk(b) && s == EncBody(b) && data == ChunkData(b.chunks)
  {
    assert s[0..] == s;
    if Decode(s, 0) == Decoded(data) {
      var b := DecodedIsGrammar(s, 0);
    }
    if b: Body :| BodyOk(b) && s == EncBody(b) && data == ChunkData(b.chunks) {
      GrammarDecodes(s, 0, b);
    }
  }

  // ---------------------------------------------------------------- whole chunks

  /** The data of the chunks that lie whole in `s` from `src` on, and where they end. */
  datatype Progress = Progress(got: Bytes, at: nat)

  function Whole(s: Bytes, src: nat): (p: Progress)
    requires src <= |s|
    ensures src + |p.got| <= p.at <= |s|
    decreases |s| - src
  {
    match PieceAt(s, src)
    case DataChunk(d, n) =>
      var p := Whole(s, d + n + 2);
      Progress(s[d..d + n] + p.got, p.at)
    case _ => Progress([], src)
  }

  /** One chunk is taken from both. */
  lemma ChunkStep(s: Bytes, src: nat, d: nat, n: nat)
    requires src <= |s| && PieceAt(s, src) == DataChunk(d, n)
    ensures Decode(s, src) == Prefixed(s[d..d + n], Decode(s, d + n + 2))
    ensures Whole(s, src) ==
      Progress(s[d..d + n] + Whole(s, d + n + 2).got, Whole(s, d + n + 2).at)
  {
    hide PieceAt;
  }

  lemma LastStep(s: Bytes, src: nat)
    requires src <= |s| && !PieceAt(s, src).DataChunk?
    ensures Whole(s, src) == Progress([], src)
    ensures Decode(s, src) == match PieceAt(s, src)
      case LastChunk => Decoded([])
      case PieceMalformed => Malformed
      case _ => NeedMore
  {
    hide PieceAt;
  }

  /** Decoding may go on where the whole chunks end: it yields the rest. */
  lemma {:induction false} Resume(s: Bytes, t: Bytes, src: nat)
    requires src <= |s|
    ensures var p := Whole(s, src);
      Decode(s + t, src) == Prefixed(p.got, Decode(s + t, p.at))
    decreases |s| - src
  {
    hide PieceAt, Decode, Whole, Prefixed;
    PieceAtExtends(s, t, src);
    if PieceAt(s, src).DataChunk? {
      var d, n := PieceAt(s, src).from, PieceAt(s, src).n;
      assert (s + t)[d..d + n] == s[d..d + n];
      ChunkStep(s, src, d, n);
      ChunkStep(s + t, src, d, n);
      Resume(s, t, d + n + 2);
      var p := Whole(s, d + n + 2);
      PrefixedTwice(s[d..d + n], p.got, Decode(s + t, p.at));
    } else {
      LastStep(s, src);
      PrefixedNothing(Decode(s + t, src));
    }
  }

  lemma PrefixedTwice(p: Bytes, q: Bytes, v: Chunked)
    ensures Prefixed(p, Prefixed(q, v)) == Prefixed(p + q, v)
  {
    if v.Decoded? { assert p + (q + v.data) == p + q + v.data; }
  }

  lemma PrefixedNothing(v: Chunked)
    ensures Prefixed([], v) == v
  {
    if v.Decoded? { assert [] + v.data == v.data; }
  }

  /** At the end of the whole chunks there is none left, and a decoded body is all of them. */
  lemma {:induction false} WholeIsMaximal(s: Bytes, src: nat)
    requires src <= |s|
    ensures !PieceAt(s, Whole(s, src).at).DataChunk?
    ensures Decode(s, src).Decoded? ==> Decode(s, src).data == Whole(s, src).got
    decreases |s| - src
  {
    hide PieceAt;
    if PieceAt(s, src).DataChunk? {
      WholeIsMaximal(s, PieceAt(s, src).from + PieceAt(s, src).n + 2);
    }
  }

  // ---------------------------------------------------------------- needing more

  const LAST_CHUNK: Bytes := [48, 13, 10, 13, 10]

  /**
   The two shapes for which the decoder asks for more although nothing can follow: a size line
   without digits, and chunk data with one byte behind it that is not the CR of its CRLF.
   */
  predicate Stuck(s: Bytes, src: nat)
    requires src <= |s|
  {
    (src < |s| && (s[src] == CR || s[src] == SEMI)) ||
    (var line := SizeLine(s, src);
     line.LineOk? && line.size > 0 && |s| == line.next + line.size + 1 &&
     s[line.next + line.size] != CR)
  }

  lemma StuckStays(s: Bytes, t: Bytes, src: nat)
    requires src <= |s| && Stuck(s, src)
    ensures PieceAt(s, src).PieceNeedsMore? && !Decode(s + t, src).Decoded?
  {
    hide SizeLine;
    SizeLineExtends(s, t, src);
    var line := SizeLine(s, src);
    if s[src] == CR || s[src] == SEMI {
      NoDigits(s, src);
      NoDigits(s + t, src);
    } else if t == [] {
      assert s + t == s;
    }
  }

  lemma NoDigits(s: Bytes, src: nat)
    requires src < |s| && (s[src] == CR || s[src] == SEMI)
    ensures SizeLine(s, src) == LineNeedsMore
  {
  }

  /** Digits that end the text are ended by the CR of a CRLF. */
  lemma {:induction false} ScanSizeEnds(s: Bytes, i: nat, acc: nat)
    requires i <= |s| && acc <= RESP_MAX
    ensures var r := ScanSize(s, i, acc);
      r.Size? && r.end == |s| ==> ScanSize(s + CRLF, i, acc) == r
    decreases |s| - i
  {
    if i == |s| {
      assert (s + CRLF)[i] == CR;
    } else if !EndsSize(s, i) && IsHex(s[i]) {
      var acc' := acc * 16 + HexDigit(s[i]);
      if acc' <= RESP_MAX { ScanSizeEnds(s, i + 1, acc'); }
    }
  }

  /** A size line that is not complete yet can be completed. */
  lemma LineCompletes(s: Bytes, src: nat) returns (t: Bytes)
    requires src <= |s| && SizeLine(s, src).LineNeedsMore?
    requires src < |s| ==> s[src] != CR && s[src] != SEMI
    ensures src < |s| ==> SizeLine(s + t, src).LineOk? && SizeLine(s + t, src).next == |s + t|
    ensures src == |s| ==> t == []
  {
    if src == |s| { return []; }
    var r := ScanSize(s, src, 0);
    var e := r.end;
    if e == |s| {
      ScanSizeEnds(s, src, 0);
      IndexOfIs(s + CRLF, CR, e, |s|);
      return CRLF;
    }
    var cr := IndexOf(s, CR, e);
    t := if cr == |s| then CRLF else [LF];
    ScanSizeExtends(s, t, src, 0);
    IndexOfIs(s + t, CR, e, cr);
  }

  lemma LastChunkAt(s: Bytes, k: nat)
    requires k <= |s| && s[k..] == LAST_CHUNK
    ensures Decode(s, k) == Decoded([])
  {
    assert forall i :: 0 <= i < 5 ==> s[k + i] == s[k..][i] == LAST_CHUNK[i];
    assert ScanSize(s, k + 1, 0) == Size(k + 1, 0);
    assert ScanSize(s, k, 0) == Size(k + 1, 0);
    assert SizeLine(s, k) == LineOk(0, k + 3);
  }

  /** After a whole size line: the rest of the data, or the end of the trailer. */
  lemma BodyCompletes(s: Bytes, src: nat) returns (t: Bytes)
    requires src <= |s| && SizeLine(s, src).LineOk? && !Stuck(s, src)
    requires PieceAt(s, src).PieceNeedsMore?
    ensures Decode(s + t, src).Decoded?
  {
    hide SizeLine;
    var line := SizeLine(s, src);
    var n, d := line.size, line.next;
    if n == 0 {
      t := BLANK;
      SizeLineExtends(s, t, src);
      assert IsBlank(s + t, |s|);
      return;
    }
    var had := |s| - d;
    var fill: Bytes := if had <= n then seq(n - had, i => 0) + CRLF else [LF];
    var u := s + fill;
    t := fill + LAST_CHUNK;
    assert s + t == u + LAST_CHUNK;
    SizeLineExtends(s, t, src);
    assert |u| == d + n + 2 && (s + t)[|u|..] == LAST_CHUNK;
    assert (s + t)[d + n] == u[d + n] == CR && (s + t)[d + n + 1] == u[d + n + 1] == LF;
    LastChunkAt(s + t, |u|);
  }

  lemma PieceCompletes(s: Bytes, src: nat) returns (t: Bytes)
    requires src <= |s| && PieceAt(s, src).PieceNeedsMore? && !Stuck(s, src)
    ensures Decode(s + t, src).Decoded?
  {
    hide Decode;
    if src == |s| {
      t := LAST_CHUNK;
      assert (s + t)[src..] == t;
      LastChunkAt(s + t, src);
    } else if SizeLine(s, src).LineOk? {
      t := BodyCompletes(s, src);
    } else {
      var t1 := LineCompletes(s, src);
      var u := s + t1;
      var t2 := AfterLine(u, src);
      t := t1 + t2;
      assert s + t == u + t2;
    }
  }

  lemma AfterLine(s: Bytes, src: nat) returns (t: Bytes)
    requires src < |s| && s[src] != CR && s[src] != SEMI
    requires SizeLine(s, src).LineOk? && SizeLine(s, src).next == |s|
    ensures Decode(s + t, src).Decoded?
  {
    hide SizeLine, Decode;
    t := BodyCompletes(s, src);
  }

  /** Some bytes complete the body, unless it is malformed or stuck. */
  lemma CompletesIff(s: Bytes)
    ensures (exists t: Bytes :: Decode(s + t, 0).Decoded?) <==>
      !Decode(s, 0).Malformed? && !Stuck(s, Whole(s, 0).at)
  {
    hide PieceAt, Decode, Whole, Stuck;
    var p := Whole(s, 0);
    AtEndOfWhole(s);
    if Stuck(s, p.at) {
      forall t: Bytes ensures !Decode(s + t, 0).Decoded? {
        StuckStays(s, t, p.at);
        Resume(s, t, 0);
      }
    } else if PieceAt(s, p.at).PieceNeedsMore? {
      var t := PieceCompletes(s, p.at);
      Resume(s, t, 0);
    } else if Decode(s, 0).Malformed? {
      forall t: Bytes ensures !Decode(s + t, 0).Decoded? { DecodeExtends(s, t, 0); }
    } else {
      assert s + [] == s;
    }
  }

  lemma AtEndOfWhole(s: Bytes)
    ensures var p := Whole(s, 0);
      !PieceAt(s, p.at).DataChunk? &&
      (Decode(s, 0).NeedMore? <==> PieceAt(s, p.at).PieceNeedsMore?) &&
      (Decode(s, 0).Malformed? <==> PieceAt(s, p.at).PieceMalformed?)
  {
    hide PieceAt, Decode, Whole;
    WholeIsMaximal(s, 0);
    assert s + [] == s;
    Resume(s, [], 0);
    LastStep(s, Whole(s, 0).at);
  }

  /** More bytes are asked for exactly when some complete the body, or in the two stuck shapes. */
  lemma NeedMoreIff(s: Bytes)
    ensures Decode(s, 0).NeedMore? <==>
      Stuck(s, Whole(s, 0).at) ||
      (!Decode(s, 0).Decoded? && exists t: Bytes :: Decode(s + t, 0).Decoded?)
  {
    hide PieceAt, Decode, Whole, Stuck;
    CompletesIff(s);
    AtEndOfWhole(s);
    if Stuck(s, Whole(s, 0).at) { StuckStays(s, [], Whole(s, 0).at); }
  }

  /** Both shapes occur: an empty size line, and "1 CRLF a b". */
  lemma StuckOccurs()
    ensures Stuck(CRLF, Whole(CRLF, 0).at) && Decode(CRLF, 0).NeedMore?
    ensures var s: Bytes := [49, 13, 10, 97, 98];
      Stuck(s, Whole(s, 0).at) && Decode(s, 0).NeedMore?
  {
    NoDigits(CRLF, 0);
    var s: Bytes := [49, 13, 10, 97, 98];
    assert ScanSize(s, 1, 1) == Size(1, 1);
    assert SizeLine(s, 0) == LineOk(1, 3);
  }

  /** What a call on `s` leaves in the buffer: the data of the whole chunks, then the old bytes. */
  function Left(s: Bytes): (b: Bytes)
    ensures |b| == |s|
  {
    var got := Whole(s, 0).got;
    got + s[|got|..]
  }

  // ---------------------------------------------------------------- the decoder in place

  /** The bytes of `buf[lo..hi]` from `src` on are still those of the body `s`. */
  ghost predicate Unread(buf: array<byte>, lo: nat, hi: nat, src: nat, s: Bytes)
    reads buf
  {
    lo <= hi <= buf.Length && |s| == hi - lo && src <= |s| &&
    forall i :: src <= i < |s| ==> buf[lo + i] == s[i]
  }

  method ReadSizeLine(buf: array<byte>, lo: nat, hi: nat, src: nat, ghost s: Bytes)
    returns (r: Line)
    requires Unread(buf, lo, hi, src, s)
    ensures r == SizeLine(s, src)
  {
    var len := hi - lo;
    var end: nat, size: nat, digits: nat := src, 0, 0;
    while end < len && buf[lo + end] != CR && buf[lo + end] != SEMI
      invariant src <= end <= len && size <= RESP_MAX && digits == end - src
      invariant ScanSize(s, src, 0) == ScanSize(s, end, size)
    {
      var c := buf[lo + end];
      if !IsHex(c) { return LineMalformed; }
      size := size * 16 + HexDigit(c);
      if size > RESP_MAX { return LineMalformed; }
      digits := digits + 1;
      end := end + 1;
    }
    if digits == 0 || end >= len { return LineNeedsMore; }
    ghost var e := end;
    while end < len && buf[lo + end] != CR
      invariant e <= end <= len
      invariant IndexOf(s, CR, e) == IndexOf(s, CR, end)
    {
      end := end + 1;
    }
    if end + 1 >= len { return LineNeedsMore; }
    if buf[lo + end + 1] != LF { return LineMalformed; }
    return LineOk(size, end + 2);
  }

  /** find_substring for "\r\n\r\n"; the length of the text when it is not found */
  method FindBlankLine(buf: array<byte>, lo: nat, hi: nat, t: nat, ghost s: Bytes)
    returns (k: nat)
    requires Unread(buf, lo, hi, t, s)
    ensures k == BlankLine(s, t)
  {
    var len := hi - lo;
    var i := t;
    while i + 4 <= len
      invariant t <= i <= len
      invariant BlankLine(s, t) == BlankLine(s, i)
    {
      if buf[lo + i] == CR && buf[lo + i + 1] == LF
        && buf[lo + i + 2] == CR && buf[lo + i + 3] == LF
      {
        return i;
      }
      i := i + 1;
    }
    NoBlankLeft(s, i);
    return len;
  }

  method ReadTrailer(buf: array<byte>, lo: nat, hi: nat, t: nat, ghost s: Bytes)
    returns (ends: bool)
    requires Unread(buf, lo, hi, t, s)
    ensures ends == TrailerEnds(s, t)
  {
    if hi - lo - t < 2 { return false; }
    if buf[lo + t] == CR && buf[lo + t + 1] == LF { return true; }
    var k := FindBlankLine(buf, lo, hi, t, s);
    return k < hi - lo;
  }

  lemma {:induction false} NoBlankLeft(s: Bytes, i: nat)
    requires i <= |s| < i + 4
    ensures BlankLine(s, i) == |s|
    decreases |s| - i
  {
    if i < |s| { NoBlankLeft(s, i + 1); }
  }

  method ReadPiece(buf: array<byte>, lo: nat, hi: nat, src: nat, ghost s: Bytes)
    returns (r: Piece)
    requires Unread(buf, lo, hi, src, s)
    ensures r == PieceAt(s, src)
  {
    hide SizeLine, TrailerEnds;
    var line := ReadSizeLine(buf, lo, hi, src, s);
    if line.LineMalformed? { return PieceMalformed; }
    if line.LineNeedsMore? { return PieceNeedsMore; }
    var d, size := line.next, line.size;
    if size == 0 {
      var ends := ReadTrailer(buf, lo, hi, d, s);
      return if ends then LastChunk else PieceNeedsMore;
    }
    if d + size + 2 > hi - lo { return PieceNeedsMore; }
    if buf[lo + d + size] != CR || buf[lo + d + size + 1] != LF { return PieceMalformed; }
    return DataChunk(d, size);
  }

  /** memmove towards the front */
  method MoveDown(buf: array<byte>, to: nat, from: nat, n: nat)
    requires to <= from && from + n <= buf.Length
    modifies buf
    ensures buf[to..to + n] == old(buf[from..from + n])
    ensures buf[..to] == old(buf[..to])
    ensures forall i :: to + n <= i < buf.Length ==> buf[i] == old(buf[i])
  {
    var k := 0;
    ghost var was := buf[..];
    while k < n
      invariant k <= n
      invariant forall i :: to <= i < to + k ==> buf[i] == was[from + (i - to)]
      invariant forall i :: 0 <= i < buf.Length && !(to <= i < to + k) ==> buf[i] == was[i]
    {
      buf[to + k] := buf[from + k];
      k := k + 1;
    }
    assert buf[to..to + n] == was[from..from + n];
  }

  /** 1: the body is complete; 0: more bytes are needed; -1: the framing is malformed. */
  function ReturnCode(v: Chunked): int {
    match v
    case Decoded(_) => 1
    case NeedMore => 0
    case Malformed => -1
  }

  method DecodeChunkedInPlace(buf: array<byte>, lo: nat, hi: nat) returns (rc: int, outLen: nat)
    requires lo <= hi <= buf.Length
    modifies buf
    ensures rc == ReturnCode(Decode(old(buf[lo..hi]), 0))
    ensures rc == 1 ==>
      lo + outLen <= hi && Decode(old(buf[lo..hi]), 0) == Decoded(buf[lo..lo + outLen])
    ensures var p := Whole(old(buf[lo..hi]), 0);
      buf[lo..lo + |p.got|] == p.got && buf[lo + |p.got|..hi] == old(buf[lo + |p.got|..hi])
    ensures buf[lo..hi] == Left(old(buf[lo..hi]))
    ensures buf[..lo] == old(buf[..lo]) && buf[hi..] == old(buf[hi..])
  {
    hide PieceAt, Decode, Whole, Prefixed, ReturnCode;
    ghost var s := buf[lo..hi];
    var src: nat, dst: nat := 0, 0;
    PrefixedNothing(Decode(s, 0));
    while true
      invariant dst <= src <= |s| && Unread(buf, lo, hi, dst, s)
      invariant buf[..lo] == old(buf[..lo]) && buf[hi..] == old(buf[hi..])
      invariant SoFar(s, src, buf[lo..lo + dst])
      decreases |s| - src
    {
      var piece := ReadPiece(buf, lo, hi, src, s);
      if !piece.DataChunk? {
        AtTheEnd(s, src, buf[lo..lo + dst]);
        return if piece.LastChunk? then 1 else if piece.PieceMalformed? then -1 else 0, dst;
      }
      TakeChunk(buf, lo, hi, src, dst, piece.from, piece.n, s);
      dst := dst + piece.n;
      src := piece.from + piece.n + 2;
    }
  }

  /** What `s` decodes to is `had`, then what is decoded from `src` on; so with its chunks. */
  ghost predicate SoFar(s: Bytes, src: nat, had: Bytes)
    requires src <= |s|
  {
    Decode(s, 0) == Prefixed(had, Decode(s, src)) &&
    Whole(s, 0) == Progress(had + Whole(s, src).got, Whole(s, src).at)
  }

  lemma AtTheEnd(s: Bytes, src: nat, had: Bytes)
    requires src <= |s| && !PieceAt(s, src).DataChunk? && SoFar(s, src, had)
    ensures Whole(s, 0) == Progress(had, src)
    ensures Decode(s, 0) == match PieceAt(s, src)
      case LastChunk => Decoded(had)
      case PieceMalformed => Malformed
      case _ => NeedMore
    ensures ReturnCode(Decode(s, 0)) == match PieceAt(s, src)
      case LastChunk => 1
      case PieceMalformed => -1
      case _ => 0
  {
    hide PieceAt, Decode, Whole;
    LastStep(s, src);
    assert had + [] == had;
  }

  /** memmove of the data of the chunk that was read at `src` */
  method TakeChunk(buf: array<byte>, lo: nat, hi: nat, src: nat, dst: nat, d: nat, size: nat,
      ghost s: Bytes)
    requires dst <= src <= |s| && Unread(buf, lo, hi, dst, s)
    requires PieceAt(s, src) == DataChunk(d, size) && SoFar(s, src, buf[lo..lo + dst])
    modifies buf
    ensures Unread(buf, lo, hi, dst + size, s)
    ensures buf[lo..lo + dst + size] == old(buf[lo..lo + dst]) + s[d..d + size]
    ensures SoFar(s, d + size + 2, buf[lo..lo + dst + size])
    ensures buf[..lo] == old(buf[..lo]) && buf[hi..] == old(buf[hi..])
  {
    hide PieceAt, SoFar;
    ghost var had := buf[lo..lo + dst];
    ChunkTaken(s, src, had, d, size);
    assert buf[lo + d..lo + d + size] == s[d..d + size];
    MoveDown(buf, lo + dst, lo + d, size);
    assert buf[lo..lo + dst] == buf[..lo + dst][lo..] == had;
    assert buf[lo..lo + dst + size] == buf[lo..lo + dst] + buf[lo + dst..lo + dst + size];
    assert buf[..lo] == buf[..lo + dst][..lo];
  }

  lemma ChunkTaken(s: Bytes, src: nat, had: Bytes, d: nat, size: nat)
    requires src <= |s| && PieceAt(s, src) == DataChunk(d, size) && SoFar(s, src, had)
    ensures SoFar(s, d + size + 2, had + s[d..d + size])
  {
    hide PieceAt, Decode, Whole, Prefixed;
    ChunkStep(s, src, d, size);
    PrefixedTwice(had, s[d..d + size], Decode(s, d + size + 2));
    var got := Whole(s, d + size + 2).got;
    assert had + (s[d..d + size] + got) == had + s[d..d + size] + got;
  }

  // ---------------------------------------------------------------- parsing a buffer again

  /** As long as no chunk was whole the buffer is unchanged and may be parsed again. */
  lemma {:induction false} ReparseWithoutChunk(s: Bytes, t: Bytes)
    requires Whole(s, 0).got == []
    ensures Left(s) == s && Decode(Left(s) + t, 0) == Decode(s + t, 0)
  {
    assert Left(s) == s;
  }

  /**
   Once a chunk was whole, its data stands where the first size line stood. Parsing the buffer
   that was left again never completes, whatever arrives, exactly when it is malformed or stuck; so
   it is whenever the data does not begin with a hex digit.
   */
  lemma {:induction false} ReparseNeverCompletesIff(s: Bytes)
    ensures var b := Left(s);
      (forall t: Bytes :: !Decode(b + t, 0).Decoded?) <==>
        Decode(b, 0).Malformed? || Stuck(b, Whole(b, 0).at)
    ensures Whole(s, 0).got != [] && !IsHex(Whole(s, 0).got[0]) ==>
      Decode(Left(s), 0).Malformed? || Stuck(Left(s), Whole(Left(s), 0).at)
  {
    var b := Left(s);
    CompletesIff(b);
    var got := Whole(s, 0).got;
    if got != [] && !IsHex(got[0]) {
      assert b[0] == got[0];
      assert SizeLine(b, 0) == if EndsSize(b, 0) then LineNeedsMore else LineMalformed;
    }
  }

  /** A chunk that is read before the last chunk arrives is lost when the buffer is parsed again. */
  lemma ReparseLosesChunk(c: Chunk)
    requires ChunkOk(c) && !IsHex(c.data[0])
    ensures Decode(EncChunk(c) + LAST_CHUNK, 0) == Decoded(c.data)
    ensures !Decode(Left(EncChunk(c)) + LAST_CHUNK, 0).Decoded?
  {
    var s := EncChunk(c);
    hide EncChunk, Decode, Left;
    assert s[0..] == s + [];
    ChunkDecodes(s, 0, c, []);
    LastChunkDecodes(s + LAST_CHUNK, s, c);
    WholeChunkFirst(s, c);
    ReparseNeverCompletesIff(s);
  }

  lemma LastChunkDecodes(u: Bytes, s: Bytes, c: Chunk)
    requires ChunkOk(c) && s == EncChunk(c) && u == s + LAST_CHUNK
    ensures Decode(u, 0) == Decoded(c.data)
  {
    hide ChunkOk, EncChunk, Decode;
    assert HexValue([48]) == 0 by { assert [48][..0] == []; }
    var body := Body([c], [48], [], CRLF);
    assert EncHead([48], []) + CRLF == LAST_CHUNK;
    assert EncChunks([c]) == EncChunk(c) + EncChunks([]) == EncChunk(c);
    assert u[0..] == EncBody(body);
    GrammarDecodes(u, 0, body);
    assert ChunkData([c]) == c.data + ChunkData([]) == c.data;
  }

  lemma WholeChunkFirst(s: Bytes, c: Chunk)
    requires ChunkOk(c) && s == EncChunk(c)
    ensures Whole(s, 0).got == c.data
  {
    hide ChunkOk, EncChunk, EncHead;
    assert s[0..] == s + [];
    ChunkReads(s, 0, c, []);
    assert ScanSize(s, |s|, 0) == Size(|s|, 0);
    assert Whole(s, |s|) == Progress([], |s|);
  }

  /** So is "5 CRLF hello CRLF". */
  lemma ReparseDiffers()
    ensures var s: Bytes := [53, 13, 10, 104, 101, 108, 108, 111, 13, 10];
      Decode(s + LAST_CHUNK, 0) == Decoded([104, 101, 108, 108, 111]) &&
        !Decode(Left(s) + LAST_CHUNK, 0).Decoded?
  {
    hide Decode, Left;
    var hello: Bytes := [104, 101, 108, 108, 111];
    var c := Chunk([53], [], hello);
    assert HexValue([53]) == 5 by { assert [53][..0] == []; }
    assert EncChunk(c) == [53, 13, 10, 104, 101, 108, 108, 111, 13, 10];
    ReparseLosesChunk(c);
  }
}
