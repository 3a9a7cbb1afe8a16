/** Removing the chunked framing in place from a caller's buffer (ioHttpBodyChunkStrip in src/client/io.c). */
module ChunkStrip {
  import opened Bytes
  import opened ChunkDecoder
  import opened Memory
  import opened RecvBuffers

  /** `len` is -1 before the first chunk, and otherwise what the current chunk still owes. */
  function StripState(len: int): State { if len < 0 then START else Data(len) }

  const LAST_LINE: seq<byte> := [48, CR, LF]

  /** The body ends here: the last three bytes are the last chunk's size line. */
  ghost predicate EndsHere(st: State, s: seq<byte>) {
    |s| >= 3 && s[|s| - 3..] == LAST_LINE && After(st, s[..|s| - 3]) == START
  }

  /**
   Where the caller may cut the body: inside or at the end of chunk data, anywhere behind the last
   chunk's size line, or among the digits of a size line, though not of the first one.
   */
  ghost predicate CleanCut(st: State, s: seq<byte>) {
    After(st, s).Data? || After(st, s) == Done || (After(st, s).Size? && (st == START ==> HexRun(s) + 2 <= |s|))
  }

  datatype Verdict = Fine | MetadataOverflows

  /** One byte of chunk data less: the cut stays clean. */
  lemma CleanBehindByte(n: nat, s: seq<byte>)
    requires n > 0 && s != [] && CleanCut(Data(n), s)
    ensures CleanCut(Data(n - 1), s[1..])
    ensures After(Data(n), s) == After(Data(n - 1), s[1..]) && Out(Data(n), s) == [s[0]] + Out(Data(n - 1), s[1..])
  {
  }

  lemma {:induction false} LastLineStates(j: nat)
    requires 0 < j <= 3
    ensures var st := After(START, LAST_LINE[..j]);
      st == (if j == 1 then Size(0, 1) else if j == 2 then SizeLF(0) else Done)
  {
    var a: seq<byte>, b: seq<byte>, c: seq<byte> := [48], [48, CR], LAST_LINE;
    OneByte(START, 48);
    OneByte(Size(0, 1), CR);
    OneByte(SizeLF(0), LF);
    assert b == a + [CR] && c == b + [LF] && LAST_LINE[..1] == a && LAST_LINE[..2] == b && LAST_LINE[..3] == c;
    Concat(START, a, [CR]);
    Concat(START, b, [LF]);
  }

  /** The body cannot end before `k` bytes of it unless the state there says so. */
  lemma EndsBehind(st: State, s: seq<byte>, k: nat)
    requires EndsHere(st, s) && |s| - 3 < k <= |s|
    ensures var j := k - (|s| - 3);
      After(st, s[..k]) == (if j == 1 then Size(0, 1) else if j == 2 then SizeLF(0) else Done)
  {
    var m := |s| - 3;
    LastLineStates(k - m);
    assert s[..k] == s[..m] + LAST_LINE[..k - m];
    Concat(st, s[..m], LAST_LINE[..k - m]);
  }

  /** A line of framing less: the cut stays clean. */
  lemma CleanBehindLine(st: State, s: seq<byte>, k: nat, n: nat)
    requires k <= |s| && CleanCut(st, s) && After(st, s[..k]) == Data(n) && Out(st, s[..k]) == []
    ensures After(st, s) == After(Data(n), s[k..]) && Out(st, s) == Out(Data(n), s[k..])
    ensures CleanCut(Data(n), s[k..])
  {
    assert s == s[..k] + s[k..];
    Concat(st, s[..k], s[k..]);
  }

  /** If the input ends with the digit 0 and its line end, nothing before that stops the decoder. */
  lemma EndsOnce(st: State, s: seq<byte>, k: nat)
    requires k <= |s| && EndsHere(st, s) && After(st, s[..k]) == Done
    ensures k == |s|
  {
    var m := |s| - 3;
    if m >= k {
      assert s[..m] == s[..k] + s[k..m];
      Concat(st, s[..k], s[k..m]);
      DoneStays(s[k..m]);
    } else {
      EndsBehind(st, s, k);
    }
  }

  lemma LineHeadIs(first: bool, s: seq<byte>)
    requires var st := if first then START else Data(0); CleanCut(st, s)
    requires s != []
    ensures !first ==> |s| >= 2 && s[..2] == CRLF
    ensures var (start, rest) := (if first then 0 else 2, if first then s else s[2..]);
      var h := HexRun(rest);
      && h <= MAX_DIGITS
      && (forall i :: start <= i < start + h ==> IsHex(s[i]))
      && (start + h < |s| ==>
          start + h + 1 < |s| && s[start + h] == CR && s[start + h + 1] == LF && SizeLineIs(first, s, h))
      && (start + h == |s| ==> !first)
  {
    var st := if first then START else Data(0);
    assert After(st, s) != Bad && After(st, s) != EndLF && !After(st, s).SizeLF?;
    if first {
      assert s[0..] == s;
      HeadOf(s);
      if HexRun(s) == |s| {
        OnlyDigits(s);
      }
    } else {
      LineEndShape(s);
      assert |s| == 1 ==> s == [CR];
      OneByte(Data(0), CR);
      assert s[..2] == [s[0], s[1]];
      LineEnd(s);
      HeadOf(s[2..]);
      if HexRun(s[2..]) + 2 < |s| {
        BehindLineEnd(s, HexRun(s[2..]));
      }
      assert forall i :: 2 <= i < |s| ==> s[i] == s[2..][i - 2];
    }
  }

  lemma HeadOf(s: seq<byte>)
    requires After(START, s) != Bad && !After(START, s).SizeLF?
    ensures var h := HexRun(s);
      && h <= MAX_DIGITS && (forall i :: 0 <= i < h ==> IsHex(s[i]))
      && (h < |s| ==> h + 1 < |s| && s[h] == CR && s[h + 1] == LF && SizeLineIs(true, s, h))
  {
    SizeLineShape(s);
    var h := HexRun(s);
    assert forall i :: 0 <= i < h ==> s[..h][i] == s[i];
    if h < |s| {
      if h + 1 == |s| {
        HalfLine(s, h);
      }
      hide After, Out, HexRun, SizeLineIs;
      SizeLineReads(s);
    }
  }

  lemma HalfLine(s: seq<byte>, h: nat)
    requires |s| == h + 1 && 0 < h <= MAX_DIGITS && AllHex(s[..h]) && s[h] == CR
    ensures After(START, s).SizeLF?
  {
    var hex := s[..h];
    assert s == hex + [CR];
    Digits(0, 0, hex);
    Concat(START, hex, [CR]);
    OneByte(Size(HexFrom(0, hex), h), CR);
  }

  lemma OnlyDigits(s: seq<byte>)
    requires HexRun(s) == |s| && |s| <= MAX_DIGITS
    ensures After(START, s) == Size(HexFrom(0, s[..|s|]), |s|)
  {
    assert s[..|s|] == s;
    Digits(0, 0, s);
  }

  /** What is left of the input `s` while it is being stripped: `rest`, with `out` delivered. */
  ghost predicate Stripping(st: State, s: seq<byte>, len: nat, rest: seq<byte>, out: seq<byte>) {
    Reads(st, s, Data(len), rest, out) && CleanCut(Data(len), rest)
  }

  lemma StripByte(st: State, s: seq<byte>, len: nat, rest: seq<byte>, out: seq<byte>)
    requires Stripping(st, s, len, rest, out) && len > 0 && rest != []
    ensures Stripping(st, s, len - 1, rest[1..], out + [rest[0]])
  {
    CleanBehindByte(len, rest);
    ReadsData(len, rest, 1);
    ReadsTrans(st, s, Data(len), rest, out, Data(len - 1), rest[1..], rest[..1]);
    assert rest[..1] == [rest[0]];
  }

  /** A later size line: behind it the next chunk is stripped. */
  lemma StripLine(st: State, s: seq<byte>, rest: seq<byte>, out: seq<byte>, h: nat, n: nat)
    requires Stripping(st, s, 0, rest, out) && SizeLineIs(false, rest, h) && n == HexFrom(0, rest[2..2 + h]) && n > 0
    ensures Stripping(st, s, n, rest[h + 4..], out)
  {
    var k := h + 4;
    assert Reads(Data(0), rest, Data(n), rest[k..], []);
    ReadsTrans(st, s, Data(0), rest, out, Data(n), rest[k..], []);
    assert out + [] == out;
    hide Reads, Out;
    CleanBehindLine(Data(0), rest, k, n);
  }

  lemma StripFirstLine(s: seq<byte>, h: nat, n: nat)
    requires CleanCut(START, s) && SizeLineIs(true, s, h) && n == HexFrom(0, s[0..0 + h]) && n > 0
    ensures Stripping(START, s, n, s[h + 2..], [])
  {
    var k := h + 2;
    assert Reads(START, s, Data(n), s[k..], []);
    hide Reads, Out;
    CleanBehindLine(START, s, k, n);
  }

  /** Zeros and a line end are what the body may end with only if there is a single zero. */
  lemma OneZero(first: bool, s: seq<byte>, h: nat)
    requires SizeLineIs(first, s, h)
    requires HexFrom(0, s[(if first then 0 else 2)..(if first then 0 else 2) + h]) == 0
    ensures var (st, size) := (if first then START else Data(0), if first then 3 else 5);
      EndsHere(st, s) <==> |s| == size
  {
    var (st, start) := (if first then START else Data(0), if first then 0 else 2);
    var hex := s[start..start + h];
    if EndsHere(st, s) {
      EndsOnce(st, s, start + h + 2);
      var front := s[..start + h - 1];
      if first {
        assert front == hex[..h - 1];
      } else {
        FramingHead(s, h);
        assert h == 1 ==> front == CRLF;
        SliceOfSlice(s, 0, h + 1, 2, h - 1);
        SliceOfSlice(s, 2, 2 + h, 0, h - 1);
        assert front == s[0..h + 1] && front[2..] == front[2..2 + (h - 1)] && hex[..h - 1] == hex[0..0 + (h - 1)];
        assert front[..2] == CRLF;
        LineEnd(front);
      }
      Digits(0, 0, hex[..h - 1]);
    }
    if |s| == start + 3 {
      assert h == 1 && hex == [s[start]] && hex[1..] == [];
      assert s[start] == 48;
      LineTail(first, s);
    }
  }

  /** A size line behind a chunk begins with the chunk's line end. */
  lemma FramingHead(s: seq<byte>, h: nat)
    requires SizeLineIs(false, s, h)
    ensures s[..2] == CRLF
  {
    var line := s[..h + 4];
    BadStays([]);
    LineEndShape(line);
    assert s[..2] == [line[0], line[1]];
  }

  lemma LineTail(first: bool, s: seq<byte>)
    requires SizeLineIs(first, s, 1) && |s| == (if first then 3 else 5) && s[|s| - 3] == 48
    ensures EndsHere(if first then START else Data(0), s)
  {
    var (st, m) := (if first then START else Data(0), |s| - 3);
    SizeLineEnd(first, s);
    assert s[m..] == [s[m], s[m + 1], s[m + 2]];
    if first {
      assert s[..m] == [];
    } else {
      FramingHead(s, 1);
      assert s[..m][..2] == CRLF && s[..m][2..] == [];
      LineEnd(s[..m]);
    }
  }

  lemma SizeLineEnd(first: bool, s: seq<byte>)
    requires SizeLineIs(first, s, 1) && |s| == (if first then 3 else 5)
    ensures s[|s| - 2] == CR && s[|s| - 1] == LF
    decreases !first
  {
    if first {
      assert s[0..0 + 1] == [s[0]] && s[..3] == s;
      hide After, Out;
      ThreeBytes(s);
    } else {
      InnerLine(s, 1);
      SizeLineEnd(true, s[2..]);
    }
  }

  lemma ThreeBytes(s: seq<byte>)
    requires |s| == 3 && IsHex(s[0]) && After(START, s[..2]).SizeLF? && After(START, s) != Bad
    ensures s[1] == CR && s[2] == LF
  {
    var a: seq<byte>, b: seq<byte>, c: seq<byte> := [s[0]], [s[1]], [s[2]];
    assert s[..2] == a + b && s == s[..2] + c;
    OneByte(START, s[0]);
    OneByte(Size(Digit(s[0]), 1), s[1]);
    OneByte(After(START, s[..2]), s[2]);
    Concat(START, a, b);
    Concat(START, s[..2], c);
  }

  lemma InnerLine(s: seq<byte>, h: nat)
    requires SizeLineIs(false, s, h)
    ensures SizeLineIs(true, s[2..], h)
  {
    FramingHead(s, h);
    var (line, short, tail) := (s[..h + 4], s[..h + 3], s[2..]);
    assert line[..2] == CRLF == short[..2];
    assert line[2..] == tail[..0 + h + 2] && short[2..] == tail[..0 + h + 1];
    assert s[2..2 + h] == tail[0..0 + h];
    LineEnd(line);
    LineEnd(short);
  }

  /** The search for the line end of a size line: the offset of its CR, or `to`. */
  method FindLine(data: array<byte>, from: nat, to: nat, ghost h: nat) returns (j: nat)
    requires from <= to <= data.Length
    requires forall i :: from <= i < from + h && i < to ==> IsHex(data[i])
    requires from + h < to ==> from + h + 1 < data.Length && data[from + h] == CR && data[from + h + 1] == LF
    ensures j == Min(from + h, to)
  {
    j := from;
    while j < to
      invariant from <= j <= Min(from + h, to)
    {
      if data[j] == CR && data[j + 1] == LF {
        return;
      }
      j := j + 1;
    }
  }

  /**
   What the source leaves of `s` when it comes to the last chunk's size line: it drops as many bytes at
   the end as a line of one digit has, together with the line end before it unless it is the first. So
   behind the payload lies whatever else there is, from the end of the last chunk's data on.
   */
  ghost predicate LeftOver(st: State, s: seq<byte>, left: seq<byte>) {
    && (left == Out(st, s) <==> EndsHere(st, s))
    && ((st == START && ZeroFirst(s) && |s| >= 3 && left == s[..|s| - 3])
        || exists rest :: LeftBehind(st, s, rest, left))
  }

  /** The body has no chunk but the last one. */
  predicate ZeroFirst(s: seq<byte>) {
    SizeLineIs(true, s, HexRun(s)) && HexFrom(0, s[0..0 + HexRun(s)]) == 0
  }

  /** `rest` is what follows the last chunk that has data. */
  ghost predicate LeftBehind(st: State, s: seq<byte>, rest: seq<byte>, left: seq<byte>) {
    Reads(st, s, Data(0), rest, Out(st, s)) && |rest| >= 5 && left == Out(st, s) + rest[..|rest| - 5]
  }

  /**
   The outcome of stripping `s`, which leaves `now` in the array: `now[..max]` is the payload and `len`
   what the last chunk still owes; behind the last chunk `len` is -1. When the cut is inside a size line,
   the `kept` bytes from its line end on lie behind the payload, to be presented again with more.
   */
  ghost predicate Stripped(st: State, s: seq<byte>, now: seq<byte>, max: nat, len: int, verdict: Verdict, kept: nat) {
    && kept <= |s| && max + kept <= |now| && now[max..max + kept] == s[|s| - kept..]
    && if After(st, s) == Done then
         verdict == Fine && len == -1 && kept == 0 && LeftOver(st, s, now[..max])
       else if After(st, s).Size? then
         && verdict == MetadataOverflows && len == 0 && kept >= 2
         && s[|s| - kept..][..2] == CRLF && AllHex(s[|s| - kept + 2..])
         && Reads(st, s, Data(0), s[|s| - kept..], now[..max])
       else
         verdict == Fine && len >= 0 && kept == 0 && Reads(st, s, Data(len), [], now[..max])
  }

  lemma StrippedAll(st: State, s: seq<byte>, now: seq<byte>, max: nat, len: nat)
    requires max <= |now| && Stripping(st, s, len, [], now[..max])
    ensures Stripped(st, s, now, max, len, Fine, 0)
  {
    ReadsRest(st, s, Data(len), [], now[..max]);
    assert now[max..max] == [] == s[|s|..];
  }

  /** The last chunk's size line, at the head of what is left. */
  lemma StripLast(st: State, s: seq<byte>, rest: seq<byte>, out: seq<byte>, h: nat)
    requires Stripping(st, s, 0, rest, out) && SizeLineIs(false, rest, h) && HexFrom(0, rest[2..2 + h]) == 0
    ensures After(st, s) == Done && |rest| >= 5 && LeftOver(st, s, out + rest[..|rest| - 5])
  {
    ZeroEnds(rest, h);
    ReadsRest(st, s, Data(0), rest, out);
    OneZero(false, rest, h);
    EndsAlike(st, s, Data(0), rest, out);
    hide After, Out, Reads, SizeLineIs, EndsHere, HexFrom;
    assert out + [] == out;
    assert out + rest[..|rest| - 5] == out <==> |rest| == 5;
    assert LeftBehind(st, s, rest, out + rest[..|rest| - 5]);
  }

  lemma ZeroEnds(rest: seq<byte>, h: nat)
    requires SizeLineIs(false, rest, h) && HexFrom(0, rest[2..2 + h]) == 0
    ensures After(Data(0), rest) == Done && Out(Data(0), rest) == [] && |rest| >= 5
  {
    var k := h + 4;
    assert rest == rest[..k] + rest[k..];
    Concat(Data(0), rest[..k], rest[k..]);
    DoneStays(rest[k..]);
  }

  /** The end of the input is the end of what is left of it. */
  lemma EndsAlike(st: State, s: seq<byte>, st': State, rest: seq<byte>, out: seq<byte>)
    requires Reads(st, s, st', rest, out) && |rest| >= 3
    ensures EndsHere(st, s) <==> EndsHere(st', rest)
  {
    var n := |s| - |rest|;
    assert s[|s| - 3..] == rest[|rest| - 3..];
    assert s[..|s| - 3] == s[..n] + rest[..|rest| - 3];
    Concat(st, s[..n], rest[..|rest| - 3]);
  }

  lemma ZeroFirstEnds(s: seq<byte>)
    requires ZeroFirst(s)
    ensures After(START, s) == Done && Out(START, s) == []
  {
    var k := HexRun(s) + 2;
    var (line, rest) := (s[..k], s[k..]);
    hide After, Out, HexRun;
    assert s == line + rest;
    Concat(START, line, rest);
    DoneStays(rest);
  }

  lemma StripLastFirst(s: seq<byte>, h: nat)
    requires SizeLineIs(true, s, h) && h == HexRun(s) && HexFrom(0, s[0..0 + h]) == 0
    ensures After(START, s) == Done && |s| >= 3 && LeftOver(START, s, s[..|s| - 3])
  {
    SizeLineFacts(true, s, h);
    ZeroFirstEnds(s);
    OneZero(true, s, h);
    hide After, Out, SizeLineIs, HexRun, HexFrom, EndsHere;
    assert s[..|s| - 3] == [] <==> |s| == 3;
  }

  lemma StrippedEnd(st: State, s: seq<byte>, now: seq<byte>, max: nat)
    requires max <= |now| && After(st, s) == Done && LeftOver(st, s, now[..max])
    ensures Stripped(st, s, now, max, -1, Fine, 0)
  {
    assert now[max..max] == [] == s[|s|..];
  }

  lemma StrippedCut(st: State, s: seq<byte>, now: seq<byte>, max: nat, rest: seq<byte>)
    requires max + |rest| <= |now| && now[max..max + |rest|] == rest && Stripping(st, s, 0, rest, now[..max])
    requires |rest| >= 2 && rest[..2] == CRLF && HexRun(rest[2..]) == |rest| - 2 <= MAX_DIGITS
    ensures Stripped(st, s, now, max, 0, MetadataOverflows, |rest|)
  {
    ReadsRest(st, s, Data(0), rest, now[..max]);
    LineEnd(rest);
    OnlyDigits(rest[2..]);
    assert s[|s| - |rest|..] == rest && rest[2..][..|rest| - 2] == rest[2..];
    assert s[|s| - |rest| + 2..] == rest[2..];
  }

  method CutFront(data: array<byte>, k: nat, max: nat) returns (max': nat)
    requires 0 < k <= max <= data.Length
    modifies data
    ensures max' == max - k && data[..max'] == old(data[k..max])
  {
    MemMove(data, 0, k, max - k);
    max' := max - k;
  }

  /** The size line that starts the body: it is cut off the front, or it is the last one. */
  method StripFirst(data: array<byte>, max: nat) returns (max': nat, len': int)
    requires 0 < max <= data.Length && CleanCut(START, data[..max])
    modifies data
    ensures max' < max
    ensures if len' == -1 then
              After(START, old(data[..max])) == Done && LeftOver(START, old(data[..max]), data[..max'])
            else len' > 0 && Stripping(START, old(data[..max]), len', data[..max'], [])
  {
    hide After, Out, Reads, CleanCut, LeftOver, Stripping, HexRun, SizeLineIs, HexFrom, AllHex;
    ghost var s := data[..max];
    LineHeadIs(true, s);
    var j := FirstCr(data, Min(max, 19), HexRun(s));
    var value := HexToSize(data[..j]);
    assert data[..j] == s[0..0 + j];
    SizeLineFacts(true, s, j);
    if value.Some? && value.value > 0 {
      StripFirstLine(s, j, value.value);
      max' := CutFront(data, j + 2, max);
      len' := value.value;
    } else {
      StripLastFirst(s, j);
      max', len' := max - 3, -1;
      assert data[..max'] == s[..max'];
    }
  }

  /** A size line behind `i` stripped bytes: cut out of the array, the last one, or not all there. */
  method StripNext(data: array<byte>, i: nat, max: nat, ghost st: State, ghost s: seq<byte>)
    returns (max': nat, len': int, verdict: Verdict)
    requires i < max <= data.Length && Stripping(st, s, 0, data[i..max], data[..i])
    modifies data
    ensures data[..i] == old(data[..i])
    ensures match verdict
            case MetadataOverflows => max' == i && len' == 0
              && Stripped(st, s, data[..], i, 0, MetadataOverflows, max - i)
            case Fine =>
              i <= max' < max
              && if len' == -1 then After(st, s) == Done && LeftOver(st, s, data[..max'])
                 else len' > 0 && Stripping(st, s, len', data[i..max'], data[..i])
  {
    hide After, Out, Reads, CleanCut, Stripped, LeftOver, Stripping, HexRun, SizeLineIs, HexFrom, AllHex;
    ghost var (rest, front) := (data[i..max], data[..i]);
    StrippingIsClean(st, s, 0, rest, front);
    var line := LocateLine(data, i, max);
    var (j, found) := line;
    if !found {
      StrippedCut(st, s, data[..], i, rest);
      return i, 0, MetadataOverflows;
    }
    ghost var h: nat := j - i - 2;
    SizeLineFacts(false, rest, h);
    SliceOfSlice(data[..], i, max, 2, h);
    assert data[i..max] == data[..][i..max] && data[i + 2..j] == data[..][i + 2..j];
    var value := HexToSize(data[i + 2..j]);
    verdict := Fine;
    if value.value > 0 {
      StripLine(st, s, rest, front, h, value.value);
      CutOut(data, i, j + 2 - i, max);
      max', len' := max - (j + 2 - i), value.value;
    } else {
      StripLast(st, s, rest, front, h);
      max', len' := max - 5, -1;
      assert data[..max'] == front + rest[..|rest| - 5];
    }
  }

  /** `k` bytes at `i` are closed up. */
  method CutOut(data: array<byte>, i: nat, k: nat, max: nat)
    requires i + k <= max <= data.Length
    modifies data
    ensures data[..i] == old(data[..i]) && data[i..max - k] == old(data[i..max])[k..]
  {
    MemMove(data, i, i + k, max - (i + k));
  }

  /** Where the size line in front of `max` ends, if it does. */
  method LocateLine(data: array<byte>, i: nat, max: nat) returns (r: (nat, bool))
    requires i < max <= data.Length && CleanCut(Data(0), data[i..max])
    ensures var (rest, j) := (data[i..max], r.0);
      if r.1 then i + 2 <= j && j + 2 <= max && SizeLineIs(false, rest, j - i - 2)
      else |rest| >= 2 && rest[..2] == CRLF && HexRun(rest[2..]) == |rest| - 2 <= MAX_DIGITS
  {
    hide After, Out, CleanCut, HexRun, SizeLineIs;
    ghost var rest := data[i..max];
    LineHeadIs(false, rest);
    ghost var h := HexRun(rest[2..]);
    assert forall k :: i <= k < max ==> data[k] == rest[k - i];
    // anything but a line end here is an unexpected end, which a clean cut rules out
    assert data[i] == CR && data[i + 1] == LF;
    var l := Min(i + 2 + 19, max);
    var j := FindLine(data, i + 2, l, h);
    return (j, j != l);
  }

  /**
   ioHttpBodyChunkStrip: with the input cut anywhere that is clean, the array is stripped in place to
   exactly what the reference decoder puts out for it.
   */
  method BodyChunkStrip(data: array<byte>, max: nat, len: int)
    returns (max': nat, len': int, verdict: Verdict, ghost kept: nat)
    requires max <= data.Length && len >= -1 && (len == -1 ==> max > 0)
    requires CleanCut(StripState(len), data[..max])
    modifies data
    ensures Stripped(StripState(len), old(data[..max]), data[..], max', len', verdict, kept)
  {
    hide After, Out, Reads, CleanCut, Stripped, LeftOver, Stripping;
    ghost var (st, s) := (StripState(len), data[..max]);
    max', len', verdict, kept := max, len, Fine, 0;
    var i := 0;
    assert data[..0] == [] && data[0..max] == s;
    if len < 0 {
      max', len' := StripFirst(data, max);
      assert data[..0] == [] && data[0..max'] == data[..max'];
      if len' < 0 {
        StrippedEnd(st, s, data[..], max');
        return;
      }
    } else {
      StrippingStarts(len, s);
    }
    while i < max'
      invariant i <= max' <= data.Length && len' >= 0 && verdict == Fine
      invariant Stripping(st, s, len', data[i..max'], data[..i])
      decreases max' - i
    {
      if len' > 0 {
        StripByte(st, s, len', data[i..max'], data[..i]);
        assert data[..i + 1] == data[..i] + [data[i]] && data[i + 1..max'] == data[i..max'][1..];
        len', i := len' - 1, i + 1;
      } else {
        kept := max' - i;
        max', len', verdict := StripNext(data, i, max', st, s);
        if verdict != Fine {
          return;
        }
        kept := 0;
        if len' < 0 {
          StrippedEnd(st, s, data[..], max');
          return;
        }
      }
    }
    assert data[i..max'] == [] && data[..i] == data[..][..max'];
    StrippedAll(st, s, data[..], max', len');
  }

  lemma SizeLineFacts(first: bool, s: seq<byte>, h: nat)
    requires SizeLineIs(first, s, h)
    ensures var start := if first then 0 else 2;
      AllHex(s[start..start + h]) && h > 0 && start + h + 2 <= |s| && HexFrom(0, s[start..start + h]) < SIZE_MODULUS
  {
  }

  lemma StrippingStarts(len: nat, s: seq<byte>)
    requires CleanCut(Data(len), s)
    ensures Stripping(Data(len), s, len, s, [])
  {
    ReadsNothing(Data(len), s);
  }

  lemma StrippingIsClean(st: State, s: seq<byte>, len: nat, rest: seq<byte>, out: seq<byte>)
    requires Stripping(st, s, len, rest, out)
    ensures CleanCut(Data(len), rest)
  {
  }

  /** The first CR within `to` bytes, behind `h` hex digits. */
  method FirstCr(data: array<byte>, to: nat, ghost h: nat) returns (j: nat)
    requires h < to <= data.Length && data[h] == CR && forall i :: 0 <= i < h ==> IsHex(data[i])
    ensures j == h
  {
    j := 0;
    while data[j] != CR
      invariant j <= h
      decreases h - j
    {
      j := j + 1;
    }
  }

  /**
   Resuming with the carried `len`, and with the kept bytes in front, gives the same payload as one
   strip of the whole input would: where the caller cuts does not matter.
   */
  lemma StripResumes(st: State, s: seq<byte>, now: seq<byte>, max: nat, len: int, verdict: Verdict, kept: nat,
                     more: seq<byte>)
    requires Stripped(st, s, now, max, len, verdict, kept) && After(st, s) != Done
    ensures After(st, s + more) == After(StripState(len), s[|s| - kept..] + more)
    ensures Out(st, s + more) == now[..max] + Out(StripState(len), s[|s| - kept..] + more)
  {
    var (front, tail) := (s[..|s| - kept], s[|s| - kept..]);
    assert s + more == front + (tail + more);
    assert kept == 0 ==> tail == [];
    assert Reads(st, s, StripState(len), tail, now[..max]);
    Concat(st, front, tail + more);
  }

  /**
   A whole body in one go: `len` says that it is over, and what is left is the payload if and only if
   nothing at all follows the last chunk's size line, which is a single zero.
   */
  lemma StripWhole(s: seq<byte>, now: seq<byte>, max: nat, len: int, verdict: Verdict, kept: nat)
    requires After(START, s) == Done && Stripped(START, s, now, max, len, verdict, kept)
    ensures verdict == Fine && len == -1
    ensures now[..max] == Out(START, s) <==> EndsHere(START, s)
  {
  }

  /** From anywhere but the end of a chunk's data, the way there takes in payload. */
  lemma {:induction false} OnTheWay(st: State, s: seq<byte>)
    requires st != Data(0) && After(st, s) == Data(0)
    ensures Out(st, s) != []
    decreases |s|
  {
    if s != [] {
      var next := Next(st, s[0]);
      if next == Done {
        DoneStays(s[1..]);
      } else if next == Bad {
        BadStays(s[1..]);
      } else if !Emits(st) {
        OnTheWay(next, s[1..]);
      }
    }
  }

  /** Only one place in a body lies behind all of the payload and in front of the framing after it. */
  lemma BehindPayload(s: seq<byte>, p: nat, q: nat)
    requires p <= q <= |s| && After(START, s[..p]) == After(START, s[..q]) == Data(0)
      && Out(START, s[..p]) == Out(START, s[..q])
    ensures p == q
  {
    var between := s[p..q];
    assert s[..q] == s[..p] + between;
    Concat(START, s[..p], between);
    assert Out(Data(0), between) == [] by {
      assert Out(START, s[..p]) + Out(Data(0), between) == Out(START, s[..p]);
    }
    if between != [] {
      OnTheWay(Next(Data(0), between[0]), between[1..]);
    }
  }

  /**
   A body as section 7.1 of RFC 9112 ends it, and as the server writes it, with one more line end behind
   the last chunk's size line: the line end of its last chunk with data stays behind the payload.
   */
  lemma ClosingLineStays(front: seq<byte>, now: seq<byte>, max: nat, len: int, verdict: Verdict, kept: nat)
    requires After(START, front) == Data(0)
    requires Stripped(START, front + (CRLF + LAST_LINE + CRLF), now, max, len, verdict, kept)
    ensures len == -1 && now[..max] == Out(START, front) + CRLF
  {
    var tail := CRLF + LAST_LINE + CRLF;
    var s := front + tail;
    TailEnds();
    Concat(START, front, tail);
    assert Out(START, front) + [] == Out(START, front) == Out(START, s);
    OnTheWay(START, front);
    if ZeroFirst(s) {
      ZeroFirstEnds(s);
    }
    hide After, Out, ZeroFirst;
    var rest :| LeftBehind(START, s, rest, now[..max]);
    var (p, q) := (|front|, |s| - |rest|);
    assert s[..p] == front;
    if p <= q {
      BehindPayload(s, p, q);
    } else {
      BehindPayload(s, q, p);
    }
    assert rest == tail && tail[..2] == CRLF;
  }

  lemma TailEnds()
    ensures After(Data(0), CRLF + LAST_LINE + CRLF) == Done && Out(Data(0), CRLF + LAST_LINE + CRLF) == []
  {
    var (tail, zero) := (CRLF + LAST_LINE + CRLF, [48 as byte]);
    assert tail[..2] == CRLF && tail[2..] == LAST_LINE + CRLF;
    LineEnd(tail);
    assert zero[1..] == [] && AllHex(zero) && HexFrom(0, zero) == 0;
    SizeLineRead(zero);
    assert zero + CRLF == LAST_LINE;
    Concat(START, LAST_LINE, CRLF);
    DoneStays(CRLF);
  }
}
