/**
 The reference decoder for the chunked coding (section 7.1 of RFC 9112, no extensions and no
 trailers): a machine that reads one byte at a time. All three decoders of the client are proved
 against it.
 */
module ChunkDecoder {
  import opened Bytes

  /** The longest size line, in digits, that the client's 19-byte windows can hold between two line ends. */
  const MAX_DIGITS: nat := 15

  predicate IsHex(b: byte) { 48 <= b <= 57 || 65 <= b <= 70 || 97 <= b <= 102 }

  function Digit(b: byte): (d: nat)
    requires IsHex(b)
    ensures d < 16
  {
    if b <= 57 then b - 48 else if b <= 70 then b - 55 else b - 87
  }

  /** A hex digit is one of the sixteen, in either case, and stands for its place. */
  lemma DigitIs(b: byte)
    ensures IsHex(b) <==> exists d: nat | d < 16 :: SameLetter(b, DIGITS[d] as int)
    ensures forall d: nat :: d < 16 && SameLetter(b, DIGITS[d] as int) ==> IsHex(b) && Digit(b) == d
  {
    forall d: nat | d < 16
      ensures DIGITS[d] as int == if d < 10 then 48 + d else 87 + d
    {
      DigitsAre(d);
    }
    Letters();
    if IsHex(b) {
      var d := Digit(b);
      assert d >= 10 ==> SMALL[d - 10] as int == DIGITS[d] as int && BIG[d - 10] as int == DIGITS[d] as int - 32;
      assert SameLetter(b, DIGITS[d] as int);
    }
  }

  /**
   `Size`: in a size line, after `digits` digits. `Data`: `left` payload bytes to come, then a line
   end. `Done`: the size line of the last chunk has been read; what follows is not looked at.
   */
  datatype State = Size(value: nat, digits: nat) | SizeLF(value: nat) | Data(left: nat) | EndLF | Done | Bad

  const START: State := Size(0, 0)

  function Next(st: State, b: byte): State {
    match st
    case Size(v, d) =>
      if IsHex(b) && d < MAX_DIGITS then Size(16 * v + Digit(b), d + 1)
      else if b == CR && d > 0 then SizeLF(v)
      else Bad
    case SizeLF(v) => if b != LF then Bad else if v == 0 then Done else Data(v)
    case Data(n) => if n > 0 then Data(n - 1) else if b == CR then EndLF else Bad
    case EndLF => if b == LF then START else Bad
    case _ => st
  }

  predicate Emits(st: State) { st.Data? && st.left > 0 }

  /** The state after reading `s`. */
  function After(st: State, s: seq<byte>): State
    decreases |s|
  {
    if s == [] then st else After(Next(st, s[0]), s[1..])
  }

  /** The payload bytes in `s`. */
  function Out(st: State, s: seq<byte>): seq<byte>
    decreases |s|
  {
    if s == [] then []
    else (if Emits(st) then [s[0]] else []) + Out(Next(st, s[0]), s[1..])
  }

  lemma FirstRead(st: State, s: seq<byte>)
    requires s != []
    ensures After(st, s) == After(Next(st, s[0]), s[1..])
    ensures Out(st, s) == (if Emits(st) then [s[0]] else []) + Out(Next(st, s[0]), s[1..])
  {
  }

  /** Reading in two pieces is reading in one: where the input is cut does not matter. */
  lemma {:induction false} Concat(st: State, a: seq<byte>, b: seq<byte>)
    ensures After(st, a + b) == After(After(st, a), b)
    ensures Out(st, a + b) == Out(st, a) + Out(After(st, a), b)
    decreases |a|
  {
    if a == [] {
      assert a + b == b;
    } else {
      hide After, Out, Next, Emits;
      assert (a + b)[0] == a[0] && (a + b)[1..] == a[1..] + b;
      FirstRead(st, a);
      FirstRead(st, a + b);
      Concat(Next(st, a[0]), a[1..], b);
    }
  }

  lemma {:induction false} BadStays(s: seq<byte>)
    ensures After(Bad, s) == Bad && Out(Bad, s) == []
  {
    if s != [] {
      BadStays(s[1..]);
    }
  }

  lemma {:induction false} DoneStays(s: seq<byte>)
    ensures After(Done, s) == Done && Out(Done, s) == []
  {
    if s != [] {
      DoneStays(s[1..]);
    }
  }

  /** Inside a chunk every byte is payload. */
  lemma {:induction false} DataBlock(n: nat, s: seq<byte>)
    requires |s| <= n
    ensures After(Data(n), s) == Data(n - |s|) && Out(Data(n), s) == s
  {
    if s != [] {
      DataBlock(n - 1, s[1..]);
      assert s == [s[0]] + s[1..];
    }
  }

  /** Framing bytes are not payload. */
  lemma LineEnd(s: seq<byte>)
    requires |s| >= 2 && s[..2] == CRLF
    ensures After(Data(0), s) == After(START, s[2..]) && Out(Data(0), s) == Out(START, s[2..])
  {
    assert s == CRLF + s[2..];
    assert Next(Data(0), CR) == EndLF && Next(EndLF, LF) == START;
    assert s[1..][1..] == s[2..] && s[0] == CR && s[1] == LF;
    assert After(Data(0), s) == After(EndLF, s[1..]) == After(START, s[1..][1..]);
  }

  // ---- size lines

  predicate AllHex(s: seq<byte>) { forall i :: 0 <= i < |s| ==> IsHex(s[i]) }

  /** The number that hex digits stand for, read on from `v`. */
  function HexFrom(v: nat, s: seq<byte>): nat
    requires AllHex(s)
    decreases |s|
  {
    if s == [] then v else HexFrom(16 * v + Digit(s[0]), s[1..])
  }

  lemma {:induction false} HexFromAppend(v: nat, s: seq<byte>, b: byte)
    requires AllHex(s) && IsHex(b)
    ensures AllHex(s + [b]) && HexFrom(v, s + [b]) == 16 * HexFrom(v, s) + Digit(b)
    decreases |s|
  {
    if s == [] {
      assert s + [b] == [b] && [b][1..] == [];
    } else {
      HexFromAppend(16 * v + Digit(s[0]), s[1..], b);
      assert (s + [b])[1..] == s[1..] + [b];
    }
  }

  function Power16(k: nat): nat { if k == 0 then 1 else 16 * Power16(k - 1) }

  /** `n` digits stand for a number below 16 to the power of `n`. */
  lemma {:induction false} HexFromBound(s: seq<byte>)
    requires AllHex(s)
    ensures HexFrom(0, s) < Power16(|s|)
  {
    if s != [] {
      var (front, b) := (s[..|s| - 1], s[|s| - 1]);
      assert s == front + [b];
      HexFromBound(front);
      HexFromAppend(0, front, b);
    }
  }

  lemma FiveDigits(k: nat)
    ensures Power16(k + 5) == 0x10_0000 * Power16(k)
  {
    assert Power16(k + 2) == 0x100 * Power16(k);
    assert Power16(k + 4) == 0x100 * Power16(k + 2);
  }

  /** No size line the decoder accepts overflows a 64-bit size. */
  lemma WindowBound()
    ensures Power16(MAX_DIGITS) == 0x1000_0000_0000_0000
  {
    FiveDigits(0);
    FiveDigits(5);
    FiveDigits(10);
  }

  lemma {:induction false} PowerGrows(j: nat, k: nat)
    requires j <= k
    ensures Power16(j) <= Power16(k)
  {
    if j < k {
      PowerGrows(j, k - 1);
    }
  }

  lemma {:induction false} Digits(v: nat, d: nat, s: seq<byte>)
    requires AllHex(s) && d + |s| <= MAX_DIGITS
    ensures After(Size(v, d), s) == Size(HexFrom(v, s), d + |s|) && Out(Size(v, d), s) == []
    decreases |s|
  {
    if s != [] {
      Digits(16 * v + Digit(s[0]), d + 1, s[1..]);
    }
  }

  /** A whole size line is read as its number: nothing for the last chunk, data otherwise. */
  lemma SizeLineRead(hex: seq<byte>)
    requires AllHex(hex) && 0 < |hex| <= MAX_DIGITS
    ensures var n := HexFrom(0, hex);
      && After(START, hex + CRLF) == (if n == 0 then Done else Data(n)) && Out(START, hex + CRLF) == []
      && After(START, hex + [CR]) == SizeLF(n)
  {
    var n := HexFrom(0, hex);
    Digits(0, 0, hex);
    Concat(START, hex, CRLF);
    Concat(START, hex, [CR]);
    OneByte(Size(n, |hex|), CR);
    assert CRLF[1..] == [LF] && [LF][1..] == [];
    assert After(Size(n, |hex|), CRLF) == After(SizeLF(n), [LF]) == Next(SizeLF(n), LF);
    assert Out(Size(n, |hex|), CRLF) == [] + Out(SizeLF(n), [LF]) == [];
  }

  /** How many hex digits `s` begins with. */
  function HexRun(s: seq<byte>): (n: nat)
    ensures n <= |s| && AllHex(s[..n])
    ensures n < |s| ==> !IsHex(s[n])
  {
    if s == [] || !IsHex(s[0]) then 0 else 1 + HexRun(s[1..])
  }

  /**
   What a stream that is not bad looks like at a size line: digits, at least one unless nothing is
   there yet, then CR, then LF, each of which may still be missing at the end of the stream.
   */
  lemma SizeLineShape(s: seq<byte>)
    requires After(START, s) != Bad
    ensures HexRun(s) <= MAX_DIGITS && (HexRun(s) == 0 ==> s == []) && LineEndAt(s, HexRun(s))
  {
    SizeShape(0, 0, s);
  }

  predicate LineEndAt(s: seq<byte>, i: nat) {
    (i < |s| ==> s[i] == CR) && (i + 1 < |s| ==> s[i + 1] == LF)
  }

  lemma {:induction false} SizeShape(v: nat, d: nat, s: seq<byte>)
    requires After(Size(v, d), s) != Bad && d <= MAX_DIGITS
    ensures d + HexRun(s) <= MAX_DIGITS && (d + HexRun(s) == 0 ==> s == []) && LineEndAt(s, HexRun(s))
    decreases |s|
  {
    hide After;
    if s != [] {
      GoodHead(Size(v, d), s);
      if IsHex(s[0]) {
        SizeShape(16 * v + Digit(s[0]), d + 1, s[1..]);
      } else {
        AfterDigits(v, d, s);
      }
    }
  }

  lemma AfterDigits(v: nat, d: nat, s: seq<byte>)
    requires After(Size(v, d), s) != Bad
    requires s != [] && IsHex(s[0]) ==> d == MAX_DIGITS
    ensures s != [] ==> d > 0 && s[0] == CR
    ensures |s| > 1 ==> s[1] == LF
  {
    hide After;
    if s != [] {
      GoodHead(Size(v, d), s);
      if |s| > 1 {
        GoodHead(SizeLF(v), s[1..]);
      }
    }
  }

  lemma GoodHead(st: State, s: seq<byte>)
    requires After(st, s) != Bad && s != []
    ensures Next(st, s[0]) != Bad && After(Next(st, s[0]), s[1..]) == After(st, s)
    ensures Out(st, s) == (if Emits(st) then [s[0]] else []) + Out(Next(st, s[0]), s[1..])
  {
    BadStays(s[1..]);
  }

  /** What it looks like where a line end is due. */
  lemma LineEndShape(s: seq<byte>)
    requires After(Data(0), s) != Bad
    ensures (|s| > 0 ==> s[0] == CR) && (|s| > 1 ==> s[1] == LF)
    ensures |s| > 1 ==> After(START, s[2..]) != Bad
  {
    if |s| > 0 {
      GoodHead(Data(0), s);
      if |s| > 1 {
        GoodHead(EndLF, s[1..]);
        assert s[..2] == [s[0], s[1]];
        LineEnd(s);
      }
    }
  }

  /** How much input is left at least, when the rest of it still leads to the end of the body. */
  lemma StillToCome(st: State, s: seq<byte>)
    requires After(st, s) == Done && (st == START || st.Data?)
    ensures |s| >= if st == START then 3 else st.left + 5
  {
    if st == START {
      StartToCome(s);
    } else if |s| <= st.left {
      DataBlock(st.left, s);
    } else {
      var (d, rest) := (s[..st.left], s[st.left..]);
      assert s == d + rest;
      DataBlock(st.left, d);
      Concat(st, d, rest);
      assert After(Data(0), rest) == Done;
      LineEndShape(rest);
      assert rest[..2] == [rest[0], rest[1]];
      LineEnd(rest);
      StartToCome(rest[2..]);
    }
  }

  /** And when there is payload in it. */
  lemma PayloadToCome(st: State, s: seq<byte>)
    requires After(st, s) != Bad && Out(st, s) != [] && (st == START || st.Data?)
    ensures |s| >= if st == START then 3 else if st.left == 0 then 5 else 1
  {
    if st == START {
      StartToCome(s);
    } else if st.left == 0 {
      LineEndShape(s);
      if |s| >= 2 {
        assert s[..2] == [s[0], s[1]];
        LineEnd(s);
        StartToCome(s[2..]);
      } else {
        NoPayload(s);
      }
    }
  }

  lemma NoPayload(s: seq<byte>)
    requires |s| < 2
    ensures Out(Data(0), s) == []
  {
    if |s| == 1 {
      assert s[1..] == [];
    }
  }

  lemma StartToCome(s: seq<byte>)
    requires After(START, s) == Done || (After(START, s) != Bad && Out(START, s) != [])
    ensures |s| >= HexRun(s) + 2 && HexRun(s) > 0
  {
    SizeLineShape(s);
    if |s| <= HexRun(s) {
      assert s[..HexRun(s)] == s;
      Digits(0, 0, s);
    } else if |s| == HexRun(s) + 1 {
      var hex := s[..HexRun(s)];
      assert s == hex + [s[|hex|]];
      OneByte(Size(HexFrom(0, hex), |hex|), CR);
      NoneOut(Size(HexFrom(0, hex), |hex|), CR);
      Digits(0, 0, hex);
      Concat(START, hex, [s[|hex|]]);
    }
  }

  lemma NoneOut(st: State, b: byte)
    requires !Emits(st)
    ensures Out(st, [b]) == []
  {
    assert [b][1..] == [];
  }

  lemma OneByte(st: State, b: byte)
    ensures After(st, [b]) == Next(st, b)
  {
    assert [b][1..] == [];
  }

  // ---- reading on

  /**
   From state `st` with `before` to come, a reader has moved to `st'` with `unread` to come and has
   delivered `added`: exactly what the reference decoder does with the bytes in between.
   */
  ghost predicate Reads(st: State, before: seq<byte>, st': State, unread: seq<byte>, added: seq<byte>) {
    var n := |before| - |unread|;
    n >= 0 && unread == before[n..] && After(st, before[..n]) == st' && Out(st, before[..n]) == added
  }

  lemma ReadsNothing(st: State, s: seq<byte>)
    ensures Reads(st, s, st, s, [])
  {
    assert s[..0] == [];
  }

  lemma ReadsTrans(st: State, a: seq<byte>, st1: State, b: seq<byte>, x: seq<byte>, st2: State, c: seq<byte>,
                   y: seq<byte>)
    requires Reads(st, a, st1, b, x) && Reads(st1, b, st2, c, y)
    ensures Reads(st, a, st2, c, x + y)
  {
    var (m, n) := (|a| - |b|, |b| - |c|);
    assert a[..m + n] == a[..m] + b[..n];
    Concat(st, a[..m], b[..n]);
  }

  /** What is still to come decides the rest: the same final state, and the rest of the payload. */
  lemma ReadsRest(st: State, before: seq<byte>, st': State, unread: seq<byte>, added: seq<byte>)
    requires Reads(st, before, st', unread, added)
    ensures After(st, before) == After(st', unread) && Out(st, before) == added + Out(st', unread)
  {
    var n := |before| - |unread|;
    assert before == before[..n] + unread;
    Concat(st, before[..n], unread);
  }

  lemma ReadsData(n: nat, before: seq<byte>, d: nat)
    requires d <= n && d <= |before|
    ensures Reads(Data(n), before, Data(n - d), before[d..], before[..d])
  {
    DataBlock(n, before[..d]);
  }

  /** On a stream that is not bad, `now` extends `base` by what the reference decoder puts out. */
  ghost predicate ChunkReads(st: State, before: seq<byte>, base: seq<byte>, st': State, unread: seq<byte>,
                             now: seq<byte>) {
    && |unread| <= |before| && unread == before[|before| - |unread|..] && base <= now
    && (After(st, before) != Bad ==> Reads(st, before, st', unread, now[|base|..]))
  }

  lemma ChunkReadsNothing(st: State, s: seq<byte>, base: seq<byte>)
    ensures ChunkReads(st, s, base, st, s, base)
  {
    ReadsNothing(st, s);
    assert base[|base|..] == [];
  }

  lemma ChunkReadsTrans(st: State, a: seq<byte>, x: seq<byte>, st1: State, b: seq<byte>, y: seq<byte>,
                        st2: State, c: seq<byte>, z: seq<byte>)
    requires ChunkReads(st, a, x, st1, b, y) && ChunkReads(st1, b, y, st2, c, z)
    ensures ChunkReads(st, a, x, st2, c, z)
  {
    hide After, Out, Reads;
    if After(st, a) != Bad {
      ReadsRest(st, a, st1, b, y[|x|..]);
      ReadsTrans(st, a, st1, b, y[|x|..], st2, c, z[|y|..]);
      assert y[|x|..] + z[|y|..] == z[|x|..];
    }
  }

  /** Copying `d` bytes from within a chunk is reading them. */
  lemma CopyReads(n: nat, before: seq<byte>, base: seq<byte>, d: nat)
    requires d <= n && d <= |before|
    ensures ChunkReads(Data(n), before, base, Data(n - d), before[d..], base + before[..d])
  {
    ReadsData(n, before, d);
    assert (base + before[..d])[|base|..] == before[..d];
  }

  // ---- every delivery schedule

  /** A reader between two calls: its decoder state, the bytes to come, and what it has delivered. */
  datatype Point = Point(st: State, unread: seq<byte>, contents: seq<byte>)

  ghost predicate Call(p: Point, q: Point) {
    ChunkReads(p.st, p.unread, p.contents, q.st, q.unread, q.contents)
  }

  /** Each point follows from the one before by one call. */
  ghost predicate Schedule(points: seq<Point>) {
    |points| <= 1 || (Call(points[0], points[1]) && Schedule(points[1..]))
  }

  lemma {:induction false} ScheduleIsCall(points: seq<Point>)
    requires points != [] && Schedule(points)
    ensures Call(points[0], points[|points| - 1])
    decreases |points|
  {
    hide ChunkReads;
    var (p, r) := (points[0], points[|points| - 1]);
    if |points| == 1 {
      ChunkReadsNothing(p.st, p.unread, p.contents);
    } else {
      var q := points[1];
      ScheduleIsCall(points[1..]);
      ChunkReadsTrans(p.st, p.unread, p.contents, q.st, q.unread, q.contents, r.st, r.unread, r.contents);
    }
  }

  lemma CallDelivers(p: Point, q: Point)
    requires Call(p, q) && After(p.st, p.unread) != Bad
    ensures q.contents <= p.contents + Out(p.st, p.unread)
    ensures q.st == Done ==> q.contents == p.contents + Out(p.st, p.unread)
  {
    var added := q.contents[|p.contents|..];
    DoneStays(q.unread);
    ReadsRest(p.st, p.unread, q.st, q.unread, added);
    hide After, Out, Reads;
    assert q.contents == p.contents + added;
    DeliversFront(p.contents, added, Out(q.st, q.unread));
  }

  lemma DeliversFront(contents: seq<byte>, added: seq<byte>, rest: seq<byte>)
    ensures contents + added <= contents + (added + rest)
    ensures rest == [] ==> contents + added == contents + (added + rest)
  {
    assert contents + (added + rest) == contents + added + rest;
  }

  /**
   However many calls it takes and however the bytes arrive, what has been delivered is a front part
   of the payload, in order; and it is the whole payload once the decoder is done.
   */
  lemma EverySchedule(points: seq<Point>)
    requires points != [] && Schedule(points) && After(points[0].st, points[0].unread) != Bad
    ensures var (first, last) := (points[0], points[|points| - 1]);
      && last.contents <= first.contents + Out(first.st, first.unread)
      && (last.st == Done ==> last.contents == first.contents + Out(first.st, first.unread))
  {
    ScheduleIsCall(points);
    CallDelivers(points[0], points[|points| - 1]);
  }

  /** The reader stopped exactly behind the last size line: one byte earlier it was not done. */
  ghost predicate JustDone(st: State, before: seq<byte>, unread: seq<byte>) {
    |unread| < |before| && After(st, before[..|before| - |unread| - 1]) == SizeLF(0)
  }

  lemma JustDoneLater(st: State, a: seq<byte>, st1: State, b: seq<byte>, x: seq<byte>, c: seq<byte>)
    requires Reads(st, a, st1, b, x) && JustDone(st1, b, c)
    ensures JustDone(st, a, c)
  {
    var (m, n) := (|a| - |b|, |b| - |c| - 1);
    assert a[..m + n] == a[..m] + b[..n];
    Concat(st, a[..m], b[..n]);
  }
}
