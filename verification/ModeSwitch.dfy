/**
 Switching a receive buffer to the chunked coding when part of the body is already in it
 (recvBufferSetLengthChunk and HttpChunkParseExistingBuffer in src/client/recvbufr.c).
 */
module ModeSwitch {
  import opened Bytes
  import opened ChunkDecoder
  import opened RecvBuffers

  /** The decoder state where the bytes still in the socket begin. */
  function Here(stream: seq<byte>, unread: seq<byte>): State
    requires |unread| <= |stream|
  {
    After(START, stream[..|stream| - |unread|])
  }

  /** The value of the size line that `s` goes on with, if it is there. */
  predicate EndsInZero(v: nat, s: seq<byte>) {
    HexFrom(v, s[..HexRun(s)]) == 0 && HexRun(s) + 2 <= |s|
  }

  /**
   The size line of the last chunk is read before the reader waits for the socket: it ends the buffer; or
   it has to be completed from the socket, because the cut is inside it, or right behind the CR of the
   size line before while that chunk's data is in the socket and has no line end that stops the pull short.
   */
  predicate LastLineMissed(st: State, unread: seq<byte>) {
    match st
    case Done => true
    case Size(v, _) => EndsInZero(v, unread)
    case SizeLF(v) => FindCrlf(unread) == v + 1 && EndsInZero(0, unread[v + 3..])
    case _ => false
  }

  /** The last byte of `s` ends the last chunk's size line. */
  predicate EndsBody(s: seq<byte>) {
    After(START, s) == Done && s != [] && After(START, s[..|s| - 1]) != Done
  }

  /**
   Where the body may be cut: in or behind chunk data, in a size line, though not between the CR and the LF
   of the last one, or right behind that one.
   */
  predicate Parsable(s: seq<byte>) {
    var st := After(START, s);
    st.Data? || st.Size? || (st.SizeLF? && st.value > 0) || EndsBody(s)
  }

  /** The whole body is there with the line end that section 7.1 of RFC 9112 closes it with. */
  predicate Closed(s: seq<byte>) {
    |s| >= 2 && s[|s| - 2..] == CRLF && EndsBody(s[..|s| - 2])
  }

  // ---- the loop invariant

  /**
   The first `total` bytes of `buffer` are decoded from `raw`, and the rest of the buffer is the
   stream as it came.
   */
  ghost predicate Parsing(stream: seq<byte>, unread: seq<byte>, buffer: seq<byte>, total: nat, raw: seq<byte>)
    requires total <= |buffer|
  {
    && stream == raw + (buffer[total..] + unread)
    && After(START, raw) == (if total == 0 then START else Data(0))
    && Out(START, raw) == buffer[..total]
    && (total == 0 ==> raw == [])
  }

  /** All of `buffer` is decoded, and the chunk it ends in owes the bytes up to `total`. */
  ghost predicate Parsed(stream: seq<byte>, unread: seq<byte>, buffer: seq<byte>, total: nat) {
    && |unread| <= |stream| && unread == stream[|stream| - |unread|..] && |buffer| <= total
    && (Here(stream, unread) == Data(total - |buffer|) || (Here(stream, unread) == Done && total == |buffer|))
    && Out(START, stream[..|stream| - |unread|]) == buffer
  }

  /** The decoder may not have run on past the end of the body, nor stand between a chunk's CR and LF. */
  ghost predicate AtRest(stream: seq<byte>, unread: seq<byte>)
    requires |unread| <= |stream|
  {
    var w := stream[..|stream| - |unread|];
    && Here(stream, unread) != EndLF && Here(stream, unread) != SizeLF(0)
    && (w != [] ==> After(START, w[..|w| - 1]) != Done)
  }

  function LinePos(total: nat): nat { if total == 0 then 0 else total + 2 }

  /** At the top of the loop the next size line begins at `LinePos`, right behind a whole line end. */
  lemma AtSizeLine(stream: seq<byte>, unread: seq<byte>, buffer: seq<byte>, total: nat, raw: seq<byte>)
    requires total < |buffer| && Parsing(stream, unread, buffer, total, raw)
    requires After(START, stream) != Bad && Here(stream, unread) != EndLF
    ensures LinePos(total) <= |buffer|
    ensures total > 0 ==> buffer[total..total + 2] == CRLF
    ensures After(START, buffer[LinePos(total)..] + unread) != Bad
    ensures Here(stream, unread) == After(START, buffer[LinePos(total)..])
  {
    var rest := buffer[total..];
    Concat(START, raw, rest + unread);
    Concat(START, raw, rest);
    assert stream[..|stream| - |unread|] == raw + rest;
    if total > 0 {
      LineEndShape(rest + unread);
      assert (rest + unread)[0] == rest[0];
      OneByte(Data(0), CR);
      assert |rest| == 1 ==> rest == [CR];
      assert |rest| >= 2;
      assert (rest + unread)[1] == rest[1] && (rest + unread)[2..] == buffer[total + 2..] + unread;
      assert rest[..2] == [rest[0], rest[1]] && rest[2..] == buffer[total + 2..];
      LineEnd(rest);
    } else {
      assert rest == buffer;
    }
  }

  /** The size line at the head of the rest of the buffer, with the line end before it. */
  lemma LineTakes(buffer: seq<byte>, total: nat, h: nat)
    requires total < |buffer| && LinePos(total) <= |buffer|
    requires total > 0 ==> buffer[total..total + 2] == CRLF
    requires SizeLineIs(true, buffer[LinePos(total)..], h)
    ensures var (pos, st) := (LinePos(total), if total == 0 then START else Data(0));
      var (line, n) := (buffer[total..pos + h + 2], HexFrom(0, buffer[pos..][0..0 + h]));
      After(st, line) == (if n == 0 then Done else Data(n)) && Out(st, line) == []
  {
    var (pos, line) := (LinePos(total), buffer[total..LinePos(total) + h + 2]);
    var tail := buffer[pos..];
    assert tail[..0 + h + 2] == buffer[pos..pos + h + 2];
    if total > 0 {
      assert line[..2] == CRLF && line[2..] == tail[..h + 2];
      LineEnd(line);
    }
  }

  /** What cutting `buffer[total..end]`, a size line of value `n`, out of the buffer leaves behind. */
  ghost predicate LineAt(buffer: seq<byte>, total: nat, end: nat, n: nat)
    requires total <= end <= |buffer|
  {
    var (st, line) := (if total == 0 then START else Data(0), buffer[total..end]);
    line != [] && After(st, line) == (if n == 0 then Done else Data(n)) && Out(st, line) == []
  }

  lemma LineRead(stream: seq<byte>, unread: seq<byte>, buffer: seq<byte>, total: nat, raw: seq<byte>, end: nat, n: nat)
    requires total <= end <= |buffer| && Parsing(stream, unread, buffer, total, raw) && LineAt(buffer, total, end, n)
    ensures var (raw1, rest) := (raw + buffer[total..end], buffer[end..]);
      && After(START, raw1) == (if n == 0 then Done else Data(n)) && Out(START, raw1) == buffer[..total]
      && stream == raw1 + (rest + unread)
      && stream[..|stream| - |unread|] == raw1 + rest
  {
    var line := buffer[total..end];
    hide After, Out;
    Concat(START, raw, line);
    assert Out(START, raw) + [] == Out(START, raw);
    CutSlices(stream, unread, buffer, total, raw, end);
  }

  lemma CutSlices(stream: seq<byte>, unread: seq<byte>, buffer: seq<byte>, total: nat, raw: seq<byte>, end: nat)
    requires total <= end <= |buffer| && stream == raw + (buffer[total..] + unread)
    ensures var (raw1, rest) := (raw + buffer[total..end], buffer[end..]);
      stream == raw1 + (rest + unread) && stream[..|stream| - |unread|] == raw1 + rest
  {
    var (line, rest) := (buffer[total..end], buffer[end..]);
    assert buffer[total..] == line + rest;
    assert raw + (line + rest + unread) == raw + line + (rest + unread);
  }

  /** The last chunk's line can only be the very end of the buffer. */
  lemma LastLineCutOut(stream: seq<byte>, unread: seq<byte>, buffer: seq<byte>, total: nat, raw: seq<byte>, end: nat)
    requires total <= end <= |buffer| && Parsing(stream, unread, buffer, total, raw) && AtRest(stream, unread)
    requires LineAt(buffer, total, end, 0)
    ensures end == |buffer| && Parsed(stream, unread, buffer[..total], total)
  {
    LineRead(stream, unread, buffer, total, raw, end, 0);
    var (raw1, rest) := (raw + buffer[total..end], buffer[end..]);
    hide Out, After, Parsing, LineAt;
    if rest != [] {
      DoneBefore(raw1, rest);
    }
    assert raw1 + [] == raw1;
  }

  /** Behind any other line the buffer holds all of the chunk's data, or part of it and nothing else. */
  lemma LineCutOut(stream: seq<byte>, unread: seq<byte>, buffer: seq<byte>, total: nat, raw: seq<byte>, end: nat,
                   n: nat)
    returns (raw': seq<byte>)
    requires total <= end <= |buffer| && Parsing(stream, unread, buffer, total, raw)
    requires LineAt(buffer, total, end, n) && n > 0
    ensures var buffer' := buffer[..total] + buffer[end..];
      if total + n < |buffer'| then Parsing(stream, unread, buffer', total + n, raw')
      else Parsed(stream, unread, buffer', total + n)
  {
    LineRead(stream, unread, buffer, total, raw, end, n);
    var (raw1, rest) := (raw + buffer[total..end], buffer[end..]);
    hide Out, After, LineAt, Parsing, Parsed;
    if n < |rest| {
      raw' := raw1 + rest[..n];
      DataWhole(stream, unread, buffer[..total], raw1, rest, n);
    } else {
      raw' := raw1;
      DataCut(stream, unread, buffer[..total], raw1, rest, n);
    }
  }

  lemma DataWhole(stream: seq<byte>, unread: seq<byte>, front: seq<byte>, raw: seq<byte>, rest: seq<byte>, n: nat)
    requires stream == raw + (rest + unread) && After(START, raw) == Data(n) && Out(START, raw) == front
      && 0 < n < |rest|
    ensures Parsing(stream, unread, front + rest, |front| + n, raw + rest[..n])
  {
    var (data, tail, buffer) := (rest[..n], rest[n..], front + rest);
    assert rest == data + tail && buffer == front + data + tail;
    assert buffer[..|front| + n] == front + data && buffer[|front| + n..] == tail;
    assert stream == raw + data + (tail + unread);
    Concat(START, raw, data);
    DataBlock(n, data);
  }

  lemma DataCut(stream: seq<byte>, unread: seq<byte>, front: seq<byte>, raw: seq<byte>, rest: seq<byte>, n: nat)
    requires stream == raw + (rest + unread) && After(START, raw) == Data(n) && Out(START, raw) == front && |rest| <= n
    ensures Parsed(stream, unread, front + rest, |front| + n)
  {
    assert stream == raw + rest + unread;
    assert stream[..|stream| - |unread|] == raw + rest && unread == stream[|stream| - |unread|..];
    Concat(START, raw, rest);
    DataBlock(n, rest);
  }

  lemma DoneBefore(a: seq<byte>, b: seq<byte>)
    requires After(START, a) == Done && b != []
    ensures After(START, (a + b)[..|a + b| - 1]) == Done
  {
    Concat(START, a, b[..|b| - 1]);
    DoneStays(b[..|b| - 1]);
    assert (a + b)[..|a + b| - 1] == a + b[..|b| - 1];
  }

  // ---- what a pull from the socket brings in

  lemma {:induction false} FindInFront(a: seq<byte>, b: seq<byte>)
    ensures FindCrlf(a) >= 0 ==> FindCrlf(a + b) == FindCrlf(a)
    ensures 0 <= FindCrlf(a + b) <= |a| - 2 ==> FindCrlf(a) == FindCrlf(a + b)
    decreases |a|
  {
    if a != [] {
      assert (a + b)[0] == a[0] && (a + b)[1..] == a[1..] + b;
      assert |a| > 1 ==> (a + b)[1] == a[1];
      FindInFront(a[1..], b);
    }
  }

  /** Old bytes behind the peeked ones cannot be mistaken for a line end, for they hold no LF. */
  lemma FindInView(shown: seq<byte>, old_: seq<byte>, unread: seq<byte>)
    requires shown <= unread && LF !in old_
    ensures FindCrlf(shown + old_) >= 0 ==>
      FindCrlf(shown + old_) + 2 <= |shown| && FindCrlf(unread) == FindCrlf(shown + old_)
    ensures FindCrlf(shown + old_) < 0 ==> FindCrlf(shown) < 0
  {
    var r := FindCrlf(shown + old_);
    if r >= 0 {
      assert (shown + old_)[r + 1] == LF;
      FindInFront(shown, old_);
      assert unread == shown + unread[|shown|..];
      FindInFront(shown, unread[|shown|..]);
    } else {
      FindInFront(shown, old_);
    }
  }

  lemma CutBehindCr(tail: seq<byte>, unread: seq<byte>, n: nat)
    requires LineEndAt(tail + unread, n) && |tail| == n + 1
    ensures tail == tail[..n] + [CR]
  {
    assert (tail + unread)[n] == tail[n];
  }

  lemma HexInFront(s: seq<byte>, tail: seq<byte>, h: nat)
    requires h <= HexRun(s) && h <= |tail| && tail <= s
    ensures AllHex(tail[..h])
  {
    assert tail[..h] == s[..HexRun(s)][..h];
  }

  /** A buffer that stops before the end of a size line stops in its digits or behind its CR. */
  lemma LineCutShort(tail: seq<byte>, unread: seq<byte>)
    requires After(START, tail + unread) != Bad && |tail| < HexRun(tail + unread) + 2
    ensures After(START, tail).Size? || After(START, tail).SizeLF?
    ensures LF !in tail
  {
    var s := tail + unread;
    SizeLineShape(s);
    var h := Min(HexRun(s), |tail|);
    HexInFront(s, tail, h);
    hide After, Out, HexRun, HexFrom, LineEndAt;
    var hex := tail[..h];
    Digits(0, 0, hex);
    if h == |tail| {
      assert tail == hex;
    } else {
      CutBehindCr(tail, unread, h);
      Concat(START, hex, [CR]);
      OneByte(Size(HexFrom(0, hex), h), CR);
    }
  }

  lemma PullSize(v: nat, d: nat, unread: seq<byte>)
    requires After(Size(v, d), unread) != Bad && d <= MAX_DIGITS && FindCrlf(unread) >= 0
    ensures var p := FindCrlf(unread);
      && p == HexRun(unread)
      && After(Size(v, d), unread[..p + 1]) == SizeLF(HexFrom(v, unread[..p]))
      && After(Size(v, d), unread[..p + 2]) == (if EndsInZero(v, unread) then Done else Data(HexFrom(v, unread[..p])))
  {
    SizeShape(v, d, unread);
    var h := HexRun(unread);
    FindSizeLineEnd(unread, h);
    var hex := unread[..h];
    Digits(v, d, hex);
    assert unread[..h + 1] == hex + [CR] && unread[..h + 2] == hex + [CR] + [LF];
    Concat(Size(v, d), hex, [CR]);
    Concat(Size(v, d), hex + [CR], [LF]);
    OneByte(Size(HexFrom(v, hex), d + h), CR);
    OneByte(SizeLF(HexFrom(v, hex)), LF);
  }

  /** Within `v` bytes of data and what follows, a first line end is in the data or right behind it. */
  lemma FirstLineEnd(v: nat, s: seq<byte>, q: nat)
    requires After(Data(v), s) != Bad && q + 1 < |s| && s[q] == CR && s[q + 1] == LF
    requires forall j :: 0 <= j < q ==> !(s[j] == CR && s[j + 1] == LF)
    ensures q <= v && q + 1 != v
  {
    var k := Min(v, |s|);
    assert s == s[..k] + s[k..];
    DataBlock(v, s[..k]);
    Concat(Data(v), s[..k], s[k..]);
    hide After, Out;
    if k < |s| && q + 1 >= v {
      LineEndShape(s[v..]);
      assert s[v..][0] == s[v];
      assert |s| > v + 1 ==> s[v..][1] == s[v + 1];
    }
  }

  lemma DataThenLF(v: nat, s: seq<byte>, q: nat)
    requires q + 1 < v && q + 1 < |s| && s[q + 1] == LF
    ensures After(Data(v), s[..q + 1]) == Data(v - q - 1) && After(Data(v), s[..q + 2]) == Data(v - q - 2)
  {
    DataBlock(v, s[..q + 1]);
    DataBlock(v, s[..q + 2]);
  }

  lemma PullData(v: nat, unread: seq<byte>)
    requires v > 0 && After(SizeLF(v), unread) != Bad && FindCrlf(unread) >= 0
    ensures var p := FindCrlf(unread);
      && 0 < p <= v + 1 && p != v
      && After(SizeLF(v), unread[..p + 1]) == (if p == v + 1 then EndLF else Data(v - p))
      && After(SizeLF(v), unread[..p + 2]) == (if p == v + 1 then START else Data(v - p - 1))
  {
    var (p, rest) := (FindCrlf(unread), unread[1..]);
    GoodHead(SizeLF(v), unread);
    assert unread[..p + 1][1..] == rest[..p] && unread[..p + 2][1..] == rest[..p + 1];
    assert forall i :: 0 <= i < |rest| ==> rest[i] == unread[i + 1];
    assert unread[..p + 1][0] == unread[..p + 2][0] == LF;
    assert After(SizeLF(v), unread[..p + 1]) == After(Data(v), rest[..p]);
    assert After(SizeLF(v), unread[..p + 2]) == After(Data(v), rest[..p + 1]);
    hide After, Out, FindCrlf;
    FirstLineEnd(v, rest, p - 1);
    if p == v + 1 {
      DataThenLineEnd(v, rest);
    } else {
      DataThenLF(v, rest, p - 1);
    }
  }

  lemma DataThenLineEnd(v: nat, s: seq<byte>)
    requires |s| >= v + 2 && s[v] == CR && s[v + 1] == LF
    ensures After(Data(v), s[..v + 1]) == EndLF && After(Data(v), s[..v + 2]) == START
  {
    DataBlock(v, s[..v]);
    assert s[..v + 1] == s[..v] + [CR] && s[..v + 2] == s[..v] + [CR] + [LF];
    Concat(Data(v), s[..v], [CR]);
    Concat(Data(v), s[..v] + [CR], [LF]);
    OneByte(Data(0), CR);
    OneByte(EndLF, LF);
  }

  lemma {:induction false} DigitsBounded(st: State, s: seq<byte>)
    requires st.Size? ==> st.digits <= MAX_DIGITS
    ensures After(st, s).Size? ==> After(st, s).digits <= MAX_DIGITS
    decreases |s|
  {
    if s != [] {
      DigitsBounded(Next(st, s[0]), s[1..]);
    }
  }

  lemma PullLands(st: State, unread: seq<byte>)
    requires After(st, unread) != Bad && FindCrlf(unread) >= 0
    requires (st.Size? && st.digits <= MAX_DIGITS) || (st.SizeLF? && st.value > 0)
    ensures var p := FindCrlf(unread);
      var st' := After(st, unread[..p + 2]);
      && After(st, unread[..p + 1]) != Done && st' != EndLF && st' != SizeLF(0)
      && LastLineMissed(st', unread[p + 2..]) == LastLineMissed(st, unread)
  {
    hide After, Out, FindCrlf;
    if st.Size? {
      PullSize(st.value, st.digits, unread);
    } else {
      PullData(st.value, unread);
    }
  }

  /** Pulling up to the first line end keeps the decoder at rest, and keeps the verdict on the last line. */
  lemma PullMoves(stream: seq<byte>, unread: seq<byte>)
    requires |unread| <= |stream| && unread == stream[|stream| - |unread|..]
    requires After(START, stream) != Bad && AtRest(stream, unread)
    requires (Here(stream, unread).Size? || Here(stream, unread).SizeLF?) && FindCrlf(unread) >= 0
    ensures var rest := unread[FindCrlf(unread) + 2..];
      && AtRest(stream, rest)
      && LastLineMissed(Here(stream, rest), rest) == LastLineMissed(Here(stream, unread), unread)
  {
    var p := FindCrlf(unread);
    hide Out, FindCrlf, LastLineMissed, After;
    HereLater(stream, unread, p + 2);
    HereEnds(stream, unread);
    PullLands(Here(stream, unread), unread);
    assert unread[..p + 2 - 1] == unread[..p + 1];
  }

  /** The state behind `n` more bytes, and the one just before that. */
  lemma HereLater(stream: seq<byte>, unread: seq<byte>, n: nat)
    requires |unread| <= |stream| && unread == stream[|stream| - |unread|..] && 0 < n <= |unread|
    ensures Here(stream, unread[n..]) == After(Here(stream, unread), unread[..n])
    ensures var w := stream[..|stream| - |unread[n..]|];
      w != [] && After(START, w[..|w| - 1]) == After(Here(stream, unread), unread[..n - 1])
  {
    var w := stream[..|stream| - |unread|];
    CutLater(stream, unread, n);
    hide After, Out;
    Concat(START, w, unread[..n]);
    Concat(START, w, unread[..n - 1]);
  }

  lemma HereEnds(stream: seq<byte>, unread: seq<byte>)
    requires |unread| <= |stream| && unread == stream[|stream| - |unread|..]
    ensures After(START, stream) == After(Here(stream, unread), unread)
    ensures Here(stream, unread).Size? ==> Here(stream, unread).digits <= MAX_DIGITS
  {
    var w := stream[..|stream| - |unread|];
    assert stream == w + unread;
    hide After, Out;
    DigitsBounded(START, w);
    Concat(START, w, unread);
  }

  lemma CutLater(stream: seq<byte>, unread: seq<byte>, n: nat)
    requires |unread| <= |stream| && unread == stream[|stream| - |unread|..] && 0 < n <= |unread|
    ensures var (w, w') := (stream[..|stream| - |unread|], stream[..|stream| - |unread[n..]|]);
      stream == w + unread && w' == w + unread[..n] && w'[..|w'| - 1] == w + unread[..n - 1]
  {
  }

  lemma PullKeeps(stream: seq<byte>, unread: seq<byte>, buffer: seq<byte>, total: nat, raw: seq<byte>, n: nat)
    requires total <= |buffer| && n <= |unread| && Parsing(stream, unread, buffer, total, raw)
    ensures Parsing(stream, unread[n..], buffer + unread[..n], total, raw)
  {
    PullSlices(unread, buffer, total, n);
    hide After, Out, Reads;
  }

  lemma PullSlices(unread: seq<byte>, buffer: seq<byte>, total: nat, n: nat)
    requires total <= |buffer| && n <= |unread|
    ensures var buffer' := buffer + unread[..n];
      buffer'[total..] + unread[n..] == buffer[total..] + unread && buffer'[..total] == buffer[..total]
  {
  }

  // ---- the method

  /** How the bytes of the cut relate to the outcome, once the body has not been given up. */
  ghost predicate Switched(stream: seq<byte>, unread: seq<byte>, buffer: seq<byte>, mode: Mode, zero: bool) {
    && |unread| <= |stream| && unread == stream[|stream| - |unread|..]
    && mode.ChunkLength? && mode.next >= 0
    && (if zero then mode.next == 0 && Reads(START, stream, Done, unread, buffer)
        else Reads(START, stream, Data(mode.next), unread, buffer))
  }

  lemma ParsedIsSwitched(stream: seq<byte>, unread: seq<byte>, buffer: seq<byte>, total: nat, mode: Mode)
    requires Parsed(stream, unread, buffer, total) && mode.ChunkLength? && mode.next == total - |buffer|
    ensures Switched(stream, unread, buffer, mode, LastLineMissed(Here(stream, unread), unread))
  {
  }

  /** The first byte of the buffer starts the body: nothing is decoded yet. */
  lemma NothingParsed(buffer: seq<byte>, unread: seq<byte>)
    ensures Parsing(buffer + unread, unread, buffer, 0, [])
    ensures (buffer + unread)[..|buffer + unread| - |unread|] == buffer
  {
  }

  lemma BeforeTheEnd(buffer: seq<byte>, unread: seq<byte>)
    requires Parsable(buffer)
    ensures AtRest(buffer + unread, unread) && Here(buffer + unread, unread) == After(START, buffer)
  {
    var stream := buffer + unread;
    assert stream[..|stream| - |unread|] == buffer;
    if buffer != [] && !EndsBody(buffer) {
      var front := buffer[..|buffer| - 1];
      assert buffer == front + [buffer[|buffer| - 1]];
      Concat(START, front, [buffer[|buffer| - 1]]);
      DoneStays([buffer[|buffer| - 1]]);
    }
  }

  function Zeros(n: nat): (z: seq<byte>)
    ensures |z| == n && forall i :: 0 <= i < n ==> z[i] == NUL
  {
    seq(n, _ => NUL)
  }

  /** `strstr` on the 20-byte window, which holds the head of the buffered tail and then zeros. */
  function InWindow(tail: seq<byte>): int {
    FindCrlf(tail[..Min(19, |tail|)] + Zeros(20 - Min(19, |tail|)))
  }

  lemma WindowSees(tail: seq<byte>, unread: seq<byte>)
    requires After(START, tail + unread) != Bad
    ensures var h := HexRun(tail + unread);
      InWindow(tail) == if h + 2 <= Min(19, |tail|) then h else -1
    ensures InWindow(tail) < 0 ==> |tail| < 19 && |tail| < HexRun(tail + unread) + 2
  {
    var k := Min(19, |tail|);
    assert tail[..k] == (tail + unread)[..k];
    SizeLineInView(tail + unread, k);
    SizeLineShape(tail + unread);
    FindInView(tail[..k], Zeros(20 - k), tail[..k]);
  }

  /** What the fetch finds at the top of the loop: a whole size line, or one that the buffer cuts short. */
  ghost predicate LineFetched(stream: seq<byte>, unread: seq<byte>, buffer: seq<byte>, total: nat)
    requires |unread| <= |stream| && total <= |buffer|
  {
    LinePos(total) <= |buffer|
    && var (pos, r) := (LinePos(total), InWindow(buffer[LinePos(total)..]));
       if r >= 0 then
         && pos + r + 2 <= |buffer| && AllHex(buffer[pos..pos + r])
         && HexFrom(0, buffer[pos..pos + r]) < SIZE_MODULUS
         && LineAt(buffer, total, pos + r + 2, HexFrom(0, buffer[pos..pos + r]))
       else
         |buffer| - pos < 19 && LF !in buffer[pos..] && (Here(stream, unread).Size? || Here(stream, unread).SizeLF?)
  }

  lemma FetchSees(stream: seq<byte>, unread: seq<byte>, buffer: seq<byte>, total: nat, raw: seq<byte>)
    requires total < |buffer| && Parsing(stream, unread, buffer, total, raw)
    requires After(START, stream) != Bad && |unread| <= |stream| && Here(stream, unread) != EndLF
    ensures LineFetched(stream, unread, buffer, total)
  {
    AtSizeLine(stream, unread, buffer, total, raw);
    var pos := LinePos(total);
    hide Parsing, After, Out, FindCrlf, HexFrom, AllHex, LineAt, HexRun, InWindow, Here;
    hide LineFetched;
    var tail, r := buffer[pos..], InWindow(buffer[pos..]);
    WindowSees(tail, unread);
    if r >= 0 {
      WholeLineSeen(buffer, total, unread, r);
      WholeLineFetched(stream, unread, buffer, total, r);
    } else {
      LineCutShort(tail, unread);
      PartLineFetched(stream, unread, buffer, total);
    }
  }

  lemma WholeLineFetched(stream: seq<byte>, unread: seq<byte>, buffer: seq<byte>, total: nat, r: nat)
    requires |unread| <= |stream| && total <= |buffer|
    requires LinePos(total) + r + 2 <= |buffer| && r == InWindow(buffer[LinePos(total)..])
    requires var pos := LinePos(total);
      && AllHex(buffer[pos..pos + r]) && HexFrom(0, buffer[pos..pos + r]) < SIZE_MODULUS
      && LineAt(buffer, total, pos + r + 2, HexFrom(0, buffer[pos..pos + r]))
    ensures LineFetched(stream, unread, buffer, total)
  {
    hide AllHex, HexFrom, LineAt, InWindow, Here;
  }

  lemma PartLineFetched(stream: seq<byte>, unread: seq<byte>, buffer: seq<byte>, total: nat)
    requires |unread| <= |stream| && total <= |buffer| && LinePos(total) <= |buffer|
    requires InWindow(buffer[LinePos(total)..]) < 0
    requires |buffer| - LinePos(total) < 19 && LF !in buffer[LinePos(total)..]
    requires Here(stream, unread).Size? || Here(stream, unread).SizeLF?
    ensures LineFetched(stream, unread, buffer, total)
  {
    hide AllHex, HexFrom, LineAt, InWindow, Here;
  }

  lemma WholeLineSeen(buffer: seq<byte>, total: nat, unread: seq<byte>, h: nat)
    requires total < |buffer| && LinePos(total) <= |buffer| && (total > 0 ==> buffer[total..total + 2] == CRLF)
    requires After(START, buffer[LinePos(total)..] + unread) != Bad
    requires h == HexRun(buffer[LinePos(total)..] + unread) && LinePos(total) + h + 2 <= |buffer|
    ensures var pos := LinePos(total);
      && AllHex(buffer[pos..pos + h]) && HexFrom(0, buffer[pos..pos + h]) < SIZE_MODULUS
      && LineAt(buffer, total, pos + h + 2, HexFrom(0, buffer[pos..pos + h]))
  {
    var pos := LinePos(total);
    hide After, Out, HexFrom, AllHex, LineAt, HexRun;
    SizeLineShape(buffer[pos..] + unread);
    LineFromWindow(buffer, total, unread, h);
    assert buffer[pos..pos + h] == buffer[pos..][0..0 + h];
    HexFits(buffer[pos..pos + h]);
  }

  lemma LineFromWindow(buffer: seq<byte>, total: nat, unread: seq<byte>, h: nat)
    requires total < |buffer| && LinePos(total) <= |buffer| && (total > 0 ==> buffer[total..total + 2] == CRLF)
    requires After(START, buffer[LinePos(total)..] + unread) != Bad
    requires h == HexRun(buffer[LinePos(total)..] + unread) && LinePos(total) + h + 2 <= |buffer|
    ensures AllHex(buffer[LinePos(total)..][0..0 + h])
    ensures LineAt(buffer, total, LinePos(total) + h + 2, HexFrom(0, buffer[LinePos(total)..][0..0 + h]))
  {
    var tail := buffer[LinePos(total)..];
    SizeLineReads(tail + unread);
    assert (tail + unread)[..0 + h + 2] == tail[..0 + h + 2] && (tail + unread)[..0 + h + 1] == tail[..0 + h + 1];
    assert (tail + unread)[0..0 + h] == tail[0..0 + h];
    hide After, Out, HexFrom, HexRun;
    LineTakes(buffer, total, h);
  }

  lemma WindowIs(tail: seq<byte>)
    ensures var fetched := tail[..Min(19, |tail|)];
      var hex := fetched + Zeros(20 - |fetched|);
      InWindow(tail) == FindCrlf(hex) && (FindCrlf(hex) >= 0 ==>
        FindCrlf(hex) + 2 <= |fetched| && hex[..FindCrlf(hex)] == tail[..FindCrlf(hex)])
  {
    var k := Min(19, |tail|);
    FindInView(tail[..k], Zeros(20 - k), tail[..k]);
  }

  /** The invariant of the loop, and the verdict that it carries along. */
  ghost predicate Loop(stream: seq<byte>, unread: seq<byte>, buffer: seq<byte>, total: nat, raw: seq<byte>, zero: bool)
    requires |unread| <= |stream|
  {
    && unread == stream[|stream| - |unread|..] && After(START, stream) != Bad
    && AtRest(stream, unread) && LastLineMissed(Here(stream, unread), unread) == zero
    && if total < |buffer| then Parsing(stream, unread, buffer, total, raw) else Parsed(stream, unread, buffer, total)
  }

  lemma LoopStarts(buffer: seq<byte>, unread: seq<byte>)
    requires buffer != [] && Parsable(buffer) && After(START, buffer + unread) != Bad
    ensures Loop(buffer + unread, unread, buffer, 0, [], LastLineMissed(After(START, buffer), unread))
    ensures Here(buffer + unread, unread) == After(START, buffer)
  {
    hide After, Out;
    NothingParsed(buffer, unread);
    BeforeTheEnd(buffer, unread);
  }

  lemma LoopEnds(stream: seq<byte>, unread: seq<byte>, buffer: seq<byte>, total: nat, raw: seq<byte>, zero: bool,
                 mode: Mode)
    requires |unread| <= |stream| && Loop(stream, unread, buffer, total, raw, zero) && |buffer| <= total
    requires mode.ChunkLength? && mode.next == total - |buffer|
    ensures Switched(stream, unread, buffer, mode, zero)
  {
    hide Here, AtRest, LastLineMissed;
    ParsedIsSwitched(stream, unread, buffer, total, mode);
  }

  /** Either branch of the loop body keeps the invariant. */
  lemma LoopSteps(stream: seq<byte>, unread: seq<byte>, buffer: seq<byte>, total: nat, raw: seq<byte>, zero: bool)
    returns (raw': seq<byte>)
    requires |unread| <= |stream| && Loop(stream, unread, buffer, total, raw, zero) && total < |buffer|
    ensures LinePos(total) <= |buffer|
    ensures var (pos, r) := (LinePos(total), InWindow(buffer[LinePos(total)..]));
      if r >= 0 then
        && pos + r + 2 <= |buffer| && AllHex(buffer[pos..pos + r])
        && HexFrom(0, buffer[pos..pos + r]) < SIZE_MODULUS
        && Loop(stream, unread, buffer[..total] + buffer[pos + r + 2..], total + HexFrom(0, buffer[pos..pos + r]),
            raw', zero)
      else
        && |buffer| - pos < 19 && LF !in buffer[pos..] && (Here(stream, unread).Size? || Here(stream, unread).SizeLF?)
        && (FindCrlf(unread) >= 0 ==>
              var n := FindCrlf(unread) + 2;
              Loop(stream, unread[n..], buffer + unread[..n], total, raw, zero))
  {
    hide After, Out, FindCrlf, HexFrom, AllHex, Parsing, Parsed, AtRest, Here, LastLineMissed, LineAt, InWindow;
    RestFacts(stream, unread);
    FetchSees(stream, unread, buffer, total, raw);
    var (pos, r) := (LinePos(total), InWindow(buffer[LinePos(total)..]));
    raw' := raw;
    hide Loop;
    if r >= 0 {
      raw' := LoopCuts(stream, unread, buffer, total, raw, zero, pos + r + 2, HexFrom(0, buffer[pos..pos + r]));
    } else if FindCrlf(unread) >= 0 {
      LoopPulls(stream, unread, buffer, total, raw, zero);
    }
  }

  lemma LoopCuts(stream: seq<byte>, unread: seq<byte>, buffer: seq<byte>, total: nat, raw: seq<byte>, zero: bool,
                 end: nat, n: nat)
    returns (raw': seq<byte>)
    requires |unread| <= |stream| && Loop(stream, unread, buffer, total, raw, zero) && total < |buffer|
    requires total <= end <= |buffer| && LineAt(buffer, total, end, n)
    ensures Loop(stream, unread, buffer[..total] + buffer[end..], total + n, raw', zero)
  {
    hide After, Parsing, Parsed, AtRest, Here, LastLineMissed, LineAt;
    raw' := raw;
    if n > 0 {
      raw' := LineCutOut(stream, unread, buffer, total, raw, end, n);
    } else {
      LastLineCutOut(stream, unread, buffer, total, raw, end);
      assert buffer[..total] + buffer[end..] == buffer[..total];
    }
  }

  lemma LoopPulls(stream: seq<byte>, unread: seq<byte>, buffer: seq<byte>, total: nat, raw: seq<byte>, zero: bool)
    requires |unread| <= |stream| && Loop(stream, unread, buffer, total, raw, zero) && total < |buffer|
    requires (Here(stream, unread).Size? || Here(stream, unread).SizeLF?) && FindCrlf(unread) >= 0
    ensures var n := FindCrlf(unread) + 2;
      Loop(stream, unread[n..], buffer + unread[..n], total, raw, zero)
  {
    hide After, FindCrlf, Parsing, Parsed, AtRest, Here, LastLineMissed;
    PullMoves(stream, unread);
    PullKeeps(stream, unread, buffer, total, raw, FindCrlf(unread) + 2);
  }

  /** Bytes behind a size line in the window do not change what is found there. */
  lemma WindowAhead(tail: seq<byte>, more: seq<byte>)
    requires InWindow(tail) >= 0
    ensures InWindow(tail + more) == InWindow(tail)
  {
    var (k, m) := (Min(19, |tail|), Min(19, |tail + more|));
    var (a, b) := (tail[..k], (tail + more)[..m]);
    assert b == a + b[k..];
    hide FindCrlf;
    FindInView(a, Zeros(20 - k), a);
    FindInFront(a, Zeros(20 - k));
    FindInFront(a, b[k..]);
    FindInFront(b, Zeros(20 - m));
  }

  /** What the loop finds behind the last chunk's line when the closing line end is buffered. */
  lemma ClosingWindow()
    ensures InWindow([]) == -1 && InWindow(CRLF) == 0
  {
    assert [] + Zeros(20) == Zeros(20);
    assert forall i :: 0 <= i < 20 ==> Zeros(20)[i] == NUL;
    assert FindCrlf(Zeros(20)) == -1;
    assert (CRLF + Zeros(18))[0] == CR && (CRLF + Zeros(18))[1] == LF;
  }

  /**
   The loop invariant with the closing line end in the buffer or not. `body` is the buffer without it; once
   `body` has been parsed and is empty, the line end may have gone as well.
   */
  ghost predicate Running(closed: bool, stream: seq<byte>, unread: seq<byte>, buffer: seq<byte>, body: seq<byte>,
                          total: nat,
                          raw: seq<byte>, zero: bool)
  {
    if closed then
      Loop(stream, [], body, total, raw, zero) && Here(stream, []) == Done
      && (buffer == body + CRLF || (buffer == body == [] && total == 0))
    else
      |unread| <= |stream| && Loop(stream, unread, body, total, raw, zero) && buffer == body
  }

  lemma RunningStarts(buffer: seq<byte>, unread: seq<byte>) returns (stream: seq<byte>, body: seq<byte>)
    requires buffer != [] && (Parsable(buffer) || Closed(buffer)) && After(START, buffer + unread) != Bad
    ensures Closed(buffer) ==>
      After(START, buffer) == Done && body + CRLF == buffer && stream == body && Out(START, body) == Out(START, buffer)
    ensures !Closed(buffer) ==> body == buffer && stream == buffer + unread
    ensures Running(Closed(buffer), stream, unread, buffer, body, 0, [], LastLineMissed(After(START, buffer), unread))
    ensures !Closed(buffer) ==> Here(stream, unread) == After(START, buffer)
  {
    hide Loop, LastLineMissed, Closed, Parsable, After, Out;
    if Closed(buffer) {
      ClosedIsDone(buffer);
      body := buffer[..|buffer| - 2];
      stream := body;
      assert body + [] == body;
      LoopStarts(body, []);
      DoneIsMissed([]);
      DoneIsMissed(unread);
    } else {
      stream, body := buffer + unread, buffer;
      LoopStarts(buffer, unread);
    }
  }

  lemma ClosedIsDone(buffer: seq<byte>)
    requires Closed(buffer)
    ensures var body := buffer[..|buffer| - 2];
      body + CRLF == buffer && Parsable(body) && After(START, body) == Done && body != []
      && Out(START, body) == Out(START, buffer)
    ensures After(START, buffer) == Done
  {
    var body := buffer[..|buffer| - 2];
    assert body + CRLF == buffer;
    hide Out, After;
    Concat(START, body, CRLF);
    DoneStays(CRLF);
    assert Out(START, body) + [] == Out(START, body);
  }

  lemma DoneIsMissed(unread: seq<byte>)
    ensures LastLineMissed(Done, unread)
  {
  }

  /** The parsed body of a buffer that is closed is its whole payload. */
  lemma RunningParsed(stream: seq<byte>, unread: seq<byte>, buffer: seq<byte>, body: seq<byte>, total: nat,
                      raw: seq<byte>,
                      zero: bool)
    requires Running(true, stream, unread, buffer, body, total, raw, zero) && |body| <= total
    ensures body == Out(START, stream) && total == |body|
  {
    assert stream[..|stream| - 0] == stream;
  }

  /** Either branch of the loop body keeps the invariant, with the closing line end in the buffer or not. */
  lemma RunningSteps(closed: bool, stream: seq<byte>, unread: seq<byte>, buffer: seq<byte>, body: seq<byte>, total: nat,
                     raw: seq<byte>, zero: bool)
    returns (raw': seq<byte>, body': seq<byte>)
    requires Running(closed, stream, unread, buffer, body, total, raw, zero) && total < |buffer|
    requires closed ==> FindCrlf(unread) < 0
    ensures LinePos(total) <= |buffer|
    ensures var (pos, r) := (LinePos(total), InWindow(buffer[LinePos(total)..]));
      if r >= 0 then
        && pos + r + 2 <= |buffer| && AllHex(buffer[pos..pos + r])
        && HexFrom(0, buffer[pos..pos + r]) < SIZE_MODULUS
        && Running(closed, stream, unread, buffer[..total] + buffer[pos + r + 2..], body',
                   total + HexFrom(0, buffer[pos..pos + r]), raw', zero)
      else
        && |buffer| - pos < 19 && LF !in buffer[pos..]
        && (if closed then total > 0 && |body| <= total else !Here(stream, unread).Data?)
        && (FindCrlf(unread) >= 0 ==>
              var n := FindCrlf(unread) + 2;
              Running(closed, stream, unread[n..], buffer + unread[..n], body', total, raw, zero))
  {
    hide After, Out, FindCrlf, HexFrom, AllHex, Here, InWindow, Loop;
    if !closed {
      raw' := LoopSteps(stream, unread, buffer, total, raw, zero);
      var (pos, r) := (LinePos(total), InWindow(buffer[LinePos(total)..]));
      body' := if r >= 0 then buffer[..total] + buffer[pos + r + 2..]
               else if FindCrlf(unread) >= 0 then buffer + unread[..FindCrlf(unread) + 2] else buffer;
    } else if total < |body| {
      raw', body' := ClosedSteps(stream, buffer, body, total, raw, zero);
    } else {
      RunningParsed(stream, unread, buffer, body, total, raw, zero);
      raw', body' := raw, body;
      ClosingWindow();
      var pos := LinePos(total);
      assert buffer[pos..] == if total == 0 then CRLF else [];
      assert total == 0 ==> buffer[pos..pos] == [] && buffer[..0] + buffer[2..] == [];
      EmptyHex();
    }
  }

  lemma EmptyHex()
    ensures AllHex([]) && HexFrom(0, []) == 0
  {
  }

  lemma ClosedSteps(stream: seq<byte>, buffer: seq<byte>, body: seq<byte>, total: nat, raw: seq<byte>, zero: bool)
    returns (raw': seq<byte>, body': seq<byte>)
    requires Loop(stream, [], body, total, raw, zero) && Here(stream, []) == Done && buffer == body + CRLF
    requires total < |body|
    ensures LinePos(total) <= |buffer|
    ensures var (pos, r) := (LinePos(total), InWindow(buffer[LinePos(total)..]));
      && r >= 0 && pos + r + 2 <= |buffer| && AllHex(buffer[pos..pos + r])
      && HexFrom(0, buffer[pos..pos + r]) < SIZE_MODULUS
      && Loop(stream, [], body', total + HexFrom(0, buffer[pos..pos + r]), raw', zero)
      && buffer[..total] + buffer[pos + r + 2..] == body' + CRLF
  {
    hide After, Out, FindCrlf, HexFrom, AllHex, Here, InWindow, Loop;
    raw' := LoopSteps(stream, [], body, total, raw, zero);
    var (pos, r) := (LinePos(total), InWindow(body[LinePos(total)..]));
    assert r >= 0;
    WindowAhead(body[pos..], CRLF);
    assert buffer[pos..] == body[pos..] + CRLF && buffer[pos..pos + r] == body[pos..pos + r];
    body' := body[..total] + body[pos + r + 2..];
    assert buffer[..total] == body[..total] && buffer[pos + r + 2..] == body[pos + r + 2..] + CRLF;
    assert body[..total] + (body[pos + r + 2..] + CRLF) == body' + CRLF;
  }

  lemma RunningEnds(closed: bool, stream: seq<byte>, unread: seq<byte>, buffer: seq<byte>, body: seq<byte>, total: nat,
                    raw: seq<byte>, zero: bool, mode: Mode)
    requires Running(closed, stream, unread, buffer, body, total, raw, zero) && |buffer| <= total
    requires mode.ChunkLength? && mode.next == total - |buffer|
    ensures if closed then buffer == [] && total == 0 && Out(START, stream) == []
      else Switched(stream, unread, buffer, mode, zero)
  {
    hide Loop, Switched;
    if closed {
      RunningParsed(stream, unread, buffer, body, total, raw, zero);
    } else {
      LoopEnds(stream, unread, buffer, total, raw, zero, mode);
    }
  }

  lemma ClosedSwitched(buffer: seq<byte>, unread: seq<byte>, mode: Mode)
    requires Closed(buffer) && Out(START, buffer) == [] && mode == ChunkLength(0, 0)
    ensures Switched(buffer + unread, unread, [], mode, LastLineMissed(After(START, buffer), unread))
  {
    ClosedIsDone(buffer);
    assert (buffer + unread)[..|buffer|] == buffer;
  }

  /** One pass of the loop: a size line is cut out of the buffer, or pulled in from the socket, or neither. */
  method ParsePass(self: RecvBuffer, total: nat, ghost stream: seq<byte>, ghost body: seq<byte>, ghost raw: seq<byte>,
                   ghost zero: bool, ghost closed: bool)
    returns (aborted: bool, total': nat, ghost raw': seq<byte>, ghost body': seq<byte>)
    requires self.buffer.Some? && total < |self.buffer.value|
    requires Running(closed, stream, self.serverSocket.unread, self.buffer.value, body, total, raw, zero)
    requires closed ==> FindCrlf(self.serverSocket.unread) < 0
    modifies self`buffer, self.serverSocket
    ensures self.buffer.Some?
    ensures aborted ==> NoLineInView(self.serverSocket) && (closed ==> Out(START, stream) != [])
    ensures !aborted ==>
      && Running(closed, stream, self.serverSocket.unread, self.buffer.value, body', total', raw', zero)
      && (self.serverSocket.unread == old(self.serverSocket.unread) ==>
            |self.buffer.value| - total' < |old(self.buffer.value)| - total)
    ensures |self.serverSocket.unread| <= |old(self.serverSocket.unread)|
    ensures closed || Here(stream, old(self.serverSocket.unread)).Data? ==>
      self.serverSocket.unread == old(self.serverSocket.unread) && (aborted ==> closed)
    ensures self.serverSocket.unread != old(self.serverSocket.unread) ==>
      |self.serverSocket.unread| < |old(self.serverSocket.unread)|
  {
    hide After, Out, FindCrlf, HexFrom, AllHex, Here, InWindow, Running;
    var (buffer, unread) := (self.buffer.value, self.serverSocket.unread);
    RunningFits(closed, stream, unread, buffer, body, total, raw, zero);
    raw', body' := RunningSteps(closed, stream, unread, buffer, body, total, raw, zero);
    var pos := LinePos(total);
    var fetched := buffer[pos..][..Min(19, |buffer| - pos)];
    var hex := fetched + Zeros(20 - |fetched|);
    var finish := FindCrlf(hex);
    WindowIs(buffer[pos..]);
    total' := total;
    if finish >= 0 {
      assert buffer[pos..][..finish] == buffer[pos..pos + finish];
      var value := HexToSize(hex[..finish]);
      self.buffer := Some(buffer[..total] + buffer[pos + finish + 2..]);
      total' := total + value.value;
      aborted := false;
    } else {
      assert LF !in hex;
      var pulled := PullLine(self.serverSocket, hex);
      if pulled.None? {
        if closed {
          RunningParsed(stream, unread, buffer, body, total, raw, zero);
        }
        aborted := true;
      } else {
        self.buffer := Some(buffer + pulled.value);
        raw', aborted := raw, false;
      }
    }
  }

  lemma RunningFits(closed: bool, stream: seq<byte>, unread: seq<byte>, buffer: seq<byte>, body: seq<byte>, total: nat,
                    raw: seq<byte>, zero: bool)
    requires Running(closed, stream, unread, buffer, body, total, raw, zero)
    ensures !closed ==> |unread| <= |stream|
  {
  }

  /**
   HttpChunkParseExistingBuffer. Either the connection is given up, because a peek showed no line end; or
   exactly the size lines are gone from the buffer. The reader is then in step with the reference decoder
   unless the last chunk's line has been read: then the payload is whole but the reader still waits for more.
   If the closing line end is in the buffer too, and nothing behind it on the socket, the payload is cleared
   and the connection closed, unless there is no payload.
   */
  method ParseExistingBuffer(self: RecvBuffer) returns (aborted: bool)
    requires self.buffer.Some? && self.buffer.value != []
    requires Parsable(self.buffer.value) || Closed(self.buffer.value)
    requires Closed(self.buffer.value) ==> FindCrlf(self.serverSocket.unread) < 0
    requires After(START, self.buffer.value + self.serverSocket.unread) != Bad
    modifies self, self.serverSocket
    ensures aborted ==> self.buffer == None && self.closed && self.mode == UnknownLength(0, 0)
    ensures aborted ==> NoLineInView(self.serverSocket)
    ensures !aborted ==> self.buffer.Some? && self.closed == old(self.closed)
    ensures !aborted ==>
      Switched(old(self.buffer.value + self.serverSocket.unread), self.serverSocket.unread, self.buffer.value,
        self.mode,
               old(LastLineMissed(After(START, self.buffer.value), self.serverSocket.unread)))
    ensures old(After(START, self.buffer.value)).Data? ==>
      !aborted && self.serverSocket.unread == old(self.serverSocket.unread)
    ensures old(Closed(self.buffer.value)) ==> (aborted <==> old(Out(START, self.buffer.value)) != [])
  {
    hide After, Out, FindCrlf, Here, LastLineMissed, Running, Switched, Closed, Parsable;
    ghost var (before, inData, closed) :=
      (self.serverSocket.unread, After(START, self.buffer.value).Data?, Closed(self.buffer.value));
    ghost var (zero, raw, payload) :=
      (LastLineMissed(After(START, self.buffer.value), before), [], Out(START, self.buffer.value));
    ghost var whole := self.buffer.value;
    ghost var stream, body := RunningStarts(whole, before);
    var total: nat := 0;
    while total < |self.buffer.value|
      invariant self.buffer.Some? && self.closed == old(self.closed)
      invariant inData ==> !closed && self.serverSocket.unread == before && Here(stream, before).Data?
      invariant closed ==> self.serverSocket.unread == before && Out(START, stream) == payload
      invariant Running(closed, stream, self.serverSocket.unread, self.buffer.value, body, total, raw, zero)
      decreases |self.serverSocket.unread|, |self.buffer.value| - total
    {
      aborted, total, raw, body := ParsePass(self, total, stream, body, raw, zero, closed);
      if aborted {
        Abandon(self);
        return;
      }
    }
    self.mode := ChunkLength(total, total - |self.buffer.value|);
    RunningEnds(closed, stream, self.serverSocket.unread, self.buffer.value, body, total, raw, zero, self.mode);
    if closed {
      ClosedSwitched(whole, before, self.mode);
    }
    return false;
  }

  lemma RestFacts(stream: seq<byte>, unread: seq<byte>)
    requires |unread| <= |stream| && AtRest(stream, unread)
    ensures Here(stream, unread) != EndLF
  {
  }

  /** The last peek failed, or showed no line end. */
  ghost predicate NoLineInView(socket: RecvSocket)
    reads socket
  {
    && socket.calls > 0
    && var answer := socket.kernel(socket.calls - 1);
       answer.Fails? || FindCrlf(socket.unread[..Min(Min(19, |socket.unread|), answer.n)]) < 0
  }

  /** Peeks over the window, and takes what is there up to the first line end. */
  method PullLine(socket: RecvSocket, window: seq<byte>) returns (pulled: Option<seq<byte>>)
    requires |window| == 20 && LF !in window
    modifies socket
    ensures pulled.None? ==> NoLineInView(socket) && socket.unread == old(socket.unread)
    ensures pulled.Some? ==>
      var p := FindCrlf(old(socket.unread));
      p >= 0 && pulled.value == old(socket.unread)[..p + 2] && socket.unread == old(socket.unread)[p + 2..]
  {
    hide FindCrlf;
    var shown := socket.Peek(19);
    if shown.None? {
      return None;
    }
    var hex := shown.value + window[|shown.value|..];
    FindInView(shown.value, window[|shown.value|..], socket.unread);
    var p := FindCrlf(hex);
    if p < 0 {
      assert shown.value == socket.unread[..|shown.value|];
      return None;
    }
    assert hex[..p + 2] == socket.unread[..p + 2];
    socket.Take(p + 2);
    return Some(hex[..p + 2]);
  }

  /** The abort path: clear the buffer, close the socket, and fall back to an unknown length. */
  method Abandon(self: RecvBuffer)
    modifies self
    ensures self.buffer == None && self.closed && self.mode == UnknownLength(0, 0)
  {
    self.buffer, self.closed, self.mode := None, true, UnknownLength(0, 0);
  }

  /** recvBufferSetLengthChunk */
  method SetLengthChunk(self: RecvBuffer)
    requires !self.closed
    requires self.buffer.Some? && self.buffer.value != [] ==>
      && (Parsable(self.buffer.value) || Closed(self.buffer.value))
      && (Closed(self.buffer.value) ==> FindCrlf(self.serverSocket.unread) < 0)
      && After(START, self.buffer.value + self.serverSocket.unread) != Bad
    modifies self, self.serverSocket
    ensures self.closed ==> self.buffer == None && self.mode == UnknownLength(0, 0)
    ensures !self.closed ==>
      if old(self.Contents()) == [] then
        self.mode == ChunkLength(0, -1) && self.serverSocket.unread == old(self.serverSocket.unread)
      else
        Switched(old(self.Contents() + self.serverSocket.unread), self.serverSocket.unread, self.Contents(), self.mode,
                 old(LastLineMissed(After(START, self.Contents()), self.serverSocket.unread)))
  {
    if self.buffer.Some? && self.buffer.value != [] {
      var aborted := ParseExistingBuffer(self);
    } else {
      self.mode := ChunkLength(0, -1);
    }
  }

  /** From an in-step switch on, any schedule of appends that completes has delivered the whole payload. */
  lemma SwitchedBodyArrives(stream: seq<byte>, mode: Mode, points: seq<Point>)
    requires points != [] && Schedule(points) && After(START, stream) != Bad
    requires points[0].st == DecoderState(mode) && Switched(stream, points[0].unread, points[0].contents, mode, false)
    ensures points[|points| - 1].contents <= Out(START, stream)
    ensures points[|points| - 1].st == Done ==> points[|points| - 1].contents == Out(START, stream)
  {
    var p := points[0];
    ReadsRest(START, stream, p.st, p.unread, p.contents);
    EverySchedule(points);
  }

  /**
   Once the last chunk's line has been read by the switch, the whole payload is in the buffer, and no
   schedule of appends ever completes, whether the closing line end is still on the socket or not.
   */
  lemma MissedIsStuck(stream: seq<byte>, mode: Mode, points: seq<Point>)
    requires points != [] && Schedule(points) && points[0].st == DecoderState(mode)
    requires Switched(stream, points[0].unread, points[0].contents, mode, true)
    requires points[0].unread == [] || points[0].unread == CRLF
    ensures points[0].contents == Out(START, stream)
    ensures points[|points| - 1].st != Done && points[|points| - 1].contents == points[0].contents
  {
    var (p, q) := (points[0], points[|points| - 1]);
    SwitchedWhole(stream, p.unread, p.contents, mode);
    hide After, Out, Schedule, Switched, Call;
    ScheduleIsCall(points);
    StuckCall(p, q);
  }

  lemma SwitchedWhole(stream: seq<byte>, unread: seq<byte>, now: seq<byte>, mode: Mode)
    requires Switched(stream, unread, now, mode, true)
    ensures now == Out(START, stream) && DecoderState(mode) == Data(0)
  {
    ReadsRest(START, stream, Done, unread, now);
    DoneStays(unread);
    assert now + [] == now;
  }

  lemma StuckCall(p: Point, q: Point)
    requires Call(p, q) && p.st == Data(0) && (p.unread == [] || p.unread == CRLF)
    ensures q.st != Done && q.contents == p.contents
  {
    hide After, Out;
    var n := |p.unread| - |q.unread|;
    ClosingReads(p.unread, |p.unread|);
    ClosingReads(p.unread, n);
    assert q.contents == p.contents + q.contents[|p.contents|..];
  }

  /** Nothing of the closing line end completes a reader that waits for one. */
  lemma ClosingReads(unread: seq<byte>, n: nat)
    requires (unread == [] || unread == CRLF) && n <= |unread|
    ensures After(Data(0), unread[..n]) != Done && After(Data(0), unread[..n]) != Bad && Out(Data(0), unread[..n]) == []
    ensures n == |unread| ==> After(Data(0), unread) != Bad
  {
    assert unread[..n] == [] || unread[..n] == [CR] || unread[..n] == CRLF;
    assert n == |unread| ==> unread[..n] == unread;
    OneByte(Data(0), CR);
    LineEnd(CRLF);
    assert [CR][1..] == [] && CRLF[2..] == [];
    assert Out(Data(0), [CR]) == [];
  }

  /**
   The switch does go wrong when the last line is pulled in: cut just behind the CR of the size line of a
   one-byte chunk, with the end of the body following.
   */
  lemma ShortLastChunkIsMissed()
    ensures var (buffer, unread) := ([49, CR], [LF, 65, CR, LF, 48, CR, LF]);
      && Parsable(buffer) && After(START, buffer + unread) == Done
      && LastLineMissed(After(START, buffer), unread)
  {
    var (buffer, unread) := ([49, CR], [LF, 65, CR, LF, 48, CR, LF]);
    MissedLine();
    MissedEnd();
    hide After, Out, FindCrlf, EndsInZero;
    assert unread == [LF] + [65, CR, LF] + [48, CR, LF] && unread[1 + 3..] == [48, CR, LF];
    Concat(START, buffer, unread);
  }

  /** And whatever the switch leaves of it, the reader never completes. */
  lemma ShortLastChunkIsStuck(mode: Mode, points: seq<Point>)
    requires points != [] && Schedule(points) && points[0].st == DecoderState(mode)
    requires var (buffer, unread) := ([49, CR], [LF, 65, CR, LF, 48, CR, LF]);
      Switched(buffer + unread, points[0].unread, points[0].contents, mode,
               LastLineMissed(After(START, buffer), unread))
    ensures points[|points| - 1].st != Done
  {
    var (buffer, unread) := ([49, CR], [LF, 65, CR, LF, 48, CR, LF]);
    ShortLastChunkIsMissed();
    var stream := buffer + unread;
    MissedStops(stream, points[0].unread, points[0].contents);
    MissedIsStuck(stream, mode, points);
  }

  /** Of a stream that its last byte ends nothing is left once the decoder is done. */
  lemma MissedStops(stream: seq<byte>, unread: seq<byte>, now: seq<byte>)
    requires stream == [49, CR] + [LF, 65, CR, LF, 48, CR, LF] && Reads(START, stream, Done, unread, now)
    ensures unread == []
  {
    var (w, n) := (stream[..8], |stream| - |unread|);
    BeforeMissed();
    assert w == [49, CR, LF, 65, CR, LF, 48, CR];
    if n < |stream| {
      assert w == stream[..n] + w[n..];
      Concat(START, stream[..n], w[n..]);
      DoneStays(w[n..]);
    }
  }

  /** A short whole body that the switch clears if no line end is on the socket: one byte, and both line ends. */
  lemma ShortBodyIsClosed()
    ensures var buffer := [49, CR, LF, 65, CR, LF, 48, CR, LF, CR, LF];
      Closed(buffer) && Out(START, buffer) != []
  {
    var (buffer, body) := ([49, CR, LF, 65, CR, LF, 48, CR, LF, CR, LF], [49, CR, LF, 65, CR, LF, 48, CR, LF]);
    BeforeMissed();
    MissedEnd();
    hide After, Out;
    assert body == [49, CR] + ([LF] + [65, CR, LF] + [48, CR, LF]);
    Concat(START, [49, CR], [LF] + [65, CR, LF] + [48, CR, LF]);
    assert buffer[..|buffer| - 2] == body && buffer[|buffer| - 2..] == CRLF;
    assert body[..|body| - 1] == [49, CR, LF, 65, CR, LF, 48, CR];
    FirstByteOut([48, CR, LF, CR, LF]);
    assert buffer == [49, CR, LF, 65, CR, LF] + [48, CR, LF, CR, LF];
  }

  lemma FirstByteOut(more: seq<byte>)
    ensures Out(START, [49, CR, LF, 65, CR, LF] + more) != []
  {
    var a: seq<byte>, data: seq<byte> := [49], [65, CR, LF];
    assert a[1..] == [] && HexFrom(0, a) == 1 && AllHex(a);
    SizeLineRead(a);
    hide After, Out;
    DataThenLineEnd(1, data);
    Concat(START, a + CRLF, data);
    Concat(START, a + CRLF + data, more);
    assert a + CRLF + data == [49, CR, LF, 65, CR, LF];
  }

  lemma BeforeMissed()
    ensures After(START, [49, CR, LF, 65, CR, LF, 48, CR]) != Done
  {
    var a: seq<byte>, zero: seq<byte> := [49], [48];
    assert a[1..] == [] && HexFrom(0, a) == 1 && AllHex(a);
    assert zero[1..] == [] && HexFrom(0, zero) == 0 && AllHex(zero);
    SizeLineRead(a);
    SizeLineRead(zero);
    hide After, Out;
    DataThenLineEnd(1, [65, CR, LF]);
    assert [65, CR, LF][..3] == [65, CR, LF];
    Concat(START, a + CRLF, [65, CR, LF]);
    Concat(START, a + CRLF + [65, CR, LF], zero + [CR]);
    assert a + CRLF + [65, CR, LF] + (zero + [CR]) == [49, CR, LF, 65, CR, LF, 48, CR];
  }

  lemma MissedLine()
    ensures FindCrlf([LF] + [65, CR, LF] + [48, CR, LF]) == 2 && EndsInZero(0, [48, CR, LF])
  {
    var (unread, last) := ([LF, 65, CR, LF, 48, CR, LF], [48, CR, LF]);
    assert unread == [LF] + [65, CR, LF] + last;
    assert unread[1..] == [65, CR, LF] + last && unread[1..][1..] == [CR, LF] + last;
    assert FindCrlf([CR, LF] + last) == 0 && FindCrlf(unread[1..]) == 1;
    assert last[1..][0] == CR && HexRun(last) == 1 && last[..1] == [48] && [48][1..] == [];
  }

  lemma MissedEnd()
    ensures After(START, [49, CR]) == SizeLF(1)
    ensures After(SizeLF(1), [LF] + [65, CR, LF] + [48, CR, LF]) == Done
  {
    assert [49, CR][1..] == [CR] && [CR][1..] == [];
    assert After(START, [49, CR]) == After(Size(1, 1), [CR]) == SizeLF(1);
    var zero: seq<byte> := [48];
    assert zero[1..] == [] && HexFrom(0, zero) == 0 && AllHex(zero);
    SizeLineRead(zero);
    assert zero + CRLF == [48, CR, LF];
    hide After, Out;
    DataThenLineEnd(1, [65, CR, LF]);
    assert [65, CR, LF][..3] == [65, CR, LF];
    OneByte(SizeLF(1), LF);
    Concat(SizeLF(1), [LF], [65, CR, LF]);
    Concat(SizeLF(1), [LF] + [65, CR, LF], [48, CR, LF]);
  }
}
