/**
 The client's receive buffer (src/client/recvbufr.c): bytes fetched from a socket, with the body of
 a chunked response decoded on the way in.
 */
module RecvBuffers {
  import opened Bytes
  import opened ChunkDecoder
  import S = SendBuffers

  const SB_DATA_SIZE: S.positive := S.SB_DATA_SIZE

  datatype Error =
    | SocketError | NoDataToBeRetrieved | RequestCompleted | MalformedChunkEncoding | IllegalHexCharacter
    | NoBufferedData | TokenBiggerThenBufferLimits | ExceededMaximumAllowedBufferSize | NoTokenFound

  /** The kernel's answer to one `recv`: how much it is willing to show, or an error. */
  datatype Answer = Shows(n: nat) | Fails

  /** `strstr(s, "\r\n")` on a C string held in `s`: -1, or the offset, never behind a NUL. */
  function FindCrlf(s: seq<byte>): (r: int)
    ensures -1 <= r && (r >= 0 ==> r + 2 <= |s| && s[r] == CR && s[r + 1] == LF && NUL !in s[..r])
    ensures forall j :: 0 <= j < r ==> !(s[j] == CR && s[j + 1] == LF)
  {
    if |s| < 2 || s[0] == NUL then -1
    else if s[0] == CR && s[1] == LF then 0
    else
      var r := FindCrlf(s[1..]);
      if r == -1 then -1 else r + 1
  }

  /** In a size line the first CR LF is the one that ends it, if it is in view. */
  lemma {:induction false} FindSizeLineEnd(s: seq<byte>, h: nat)
    requires h <= |s| && AllHex(s[..h]) && LineEndAt(s, h) && (h < |s| ==> !IsHex(s[h]))
    ensures FindCrlf(s) == if h + 2 <= |s| then h else -1
  {
    if h > 0 {
      assert IsHex(s[..h][0]) && s[1..][..h - 1] == s[..h][1..];
      FindSizeLineEnd(s[1..], h - 1);
    } else if |s| >= 2 {
      assert s[0] == CR && s[1] == LF;
    }
  }

  lemma SizeLineInView(s: seq<byte>, k: nat)
    requires After(START, s) != Bad && k <= |s|
    ensures FindCrlf(s[..k]) == if HexRun(s) + 2 <= k then HexRun(s) else -1
  {
    SizeLineShape(s);
    var h := Min(HexRun(s), k);
    assert s[..k][..h] == s[..HexRun(s)][..h];
    FindSizeLineEnd(s[..k], h);
  }

  const SIZE_MODULUS: nat := 0x1_0000_0000_0000_0000

  /** The value that the shifts and masks of ioHttpBodyChunkHexToSize take from a hex character. */
  function DigitBits(c: bv8): bv8 { ((c & 0xF) + (c >> 6)) | ((c >> 3) & 0x8) }

  lemma DigitBitsAre(b: byte)
    requires IsHex(b)
    ensures DigitBits(b as bv8) as int == Digit(b)
  {
    var c := b as bv8;
    assert 48 <= b <= 57 ==> DigitBits(c) == c - 48;
    assert 65 <= b <= 70 ==> DigitBits(c) == c - 55;
    assert 97 <= b <= 102 ==> DigitBits(c) == c - 87;
  }

  /** ioHttpBodyChunkHexToSize: a number in a `size_t`, or an illegal character. */
  method HexToSize(hex: seq<byte>) returns (value: Option<nat>)
    ensures value.Some? <==> AllHex(hex)
    ensures value.Some? ==> value.value == HexFrom(0, hex) % 0x1_0000_0000_0000_0000
  {
    var v := 0;
    assert hex[..0] == [];
    for i := 0 to |hex|
      invariant AllHex(hex[..i]) && v == HexFrom(0, hex[..i]) % SIZE_MODULUS
    {
      if !IsHex(hex[i]) {
        return None;
      }
      DigitBitsAre(hex[i]);
      HexFromAppend(0, hex[..i], hex[i]);
      assert hex[..i + 1] == hex[..i] + [hex[i]];
      ShiftIn(HexFrom(0, hex[..i]), Digit(hex[i]));
      // a shift left by four leaves the low four bits clear, so that `|` adds the digit
      v := v * 16 % SIZE_MODULUS + DigitBits(hex[i] as bv8) as int;
    }
    assert hex[..|hex|] == hex;
    return Some(v);
  }

  lemma ShiftIn(x: nat, d: nat)
    requires d < 16
    ensures (x % SIZE_MODULUS) * 16 % SIZE_MODULUS + d == (16 * x + d) % SIZE_MODULUS
  {
    var (q, r) := (x / SIZE_MODULUS, x % SIZE_MODULUS);
    var (q2, r2) := (r * 16 / SIZE_MODULUS, r * 16 % SIZE_MODULUS);
    assert x == SIZE_MODULUS * q + r && r * 16 == SIZE_MODULUS * q2 + r2;
    RoomForDigit(r, q2, r2, d);
    RemainderIs(16 * x + d, 16 * q + q2, r2 + d);
  }

  /** A multiple of 16 below the modulus leaves room for one more digit. */
  lemma RoomForDigit(r: nat, q: nat, rest: nat, d: nat)
    requires r * 16 == SIZE_MODULUS * q + rest && rest < SIZE_MODULUS && d < 16
    ensures rest + d < SIZE_MODULUS
  {
    assert rest == 16 * (r - 0x1000_0000_0000_0000 * q);
  }

  lemma RemainderIs(a: nat, q: nat, r: nat)
    requires a == SIZE_MODULUS * q + r && r < SIZE_MODULUS
    ensures a % SIZE_MODULUS == r
  {
  }

  /** The part of a TCP connection that has not been read; what the remote will never send is absent. */
  class RecvSocket {
    const kernel: nat -> Answer
    var calls: nat
    var unread: seq<byte>

    /** Every answer shows at least `n` bytes, as far as there are so many. */
    ghost predicate Generous(n: nat) {
      forall k :: kernel(k).Shows? && kernel(k).n >= n
    }

    /** `recv` with MSG_PEEK, waiting while the kernel says to try again; none is a socket error. */
    method Peek(n: nat) returns (r: Option<seq<byte>>)
      modifies this`calls
      ensures calls == old(calls) + 1
      ensures r.None? <==> kernel(old(calls)).Fails?
      ensures r.Some? ==> r.value <= unread && |r.value| <= n
      ensures r.Some? ==> |r.value| == Min(Min(n, |unread|), kernel(old(calls)).n)
    {
      var answer := kernel(calls);
      calls := calls + 1;
      if answer.Fails? {
        return None;
      }
      return Some(unread[..Min(Min(n, |unread|), answer.n)]);
    }

    /** `recv` of bytes that a peek has just shown. */
    method Take(n: nat)
      requires n <= |unread|
      modifies this`unread
      ensures unread == old(unread)[n..]
    {
      unread := unread[n..];
    }
  }

  /** What a step of the chunk reader does next: go on, return, or return an error. */
  datatype Pause = Go | Stop | Broke(error: Error)

  /** The union of length modes; `next` is -1 before the first chunk. */
  datatype Mode =
    | UnknownLength(escape: nat, limit: nat)
    | KnownLength(escape: nat, total: nat)
    | TokenLength(token: seq<byte>)
    | ChunkLength(total: nat, next: int)
    | Complete

  function DecoderState(mode: Mode): State {
    if mode.ChunkLength? then (if mode.next < 0 then START else Data(mode.next)) else Done
  }

  class RecvBuffer {
    var buffer: Option<seq<byte>>
    var mode: Mode
    var closed: bool
    const serverSocket: RecvSocket

    /** recvBufferNew */
    constructor (serverSocket: RecvSocket)
      ensures buffer == None && mode == UnknownLength(0, 0) && !closed && this.serverSocket == serverSocket
    {
      buffer, mode, closed := None, UnknownLength(0, 0), false;
      this.serverSocket := serverSocket;
    }

    function Contents(): seq<byte>
      reads this
    {
      if buffer.Some? then buffer.value else []
    }

    ghost predicate Chunked()
      reads this
    {
      buffer.Some? && mode.ChunkLength? && mode.next >= -1
    }

    /** Receives at most `n` bytes to the end of the buffer (BufferAppend); none is a socket error. */
    method Receive(n: nat) returns (received: Option<nat>)
      requires buffer.Some?
      modifies this`buffer, serverSocket
      ensures buffer.Some? && serverSocket.calls == old(serverSocket.calls) + 1
      ensures received.None? ==>
        CallFailed(serverSocket) && buffer == old(buffer) && serverSocket.unread == old(serverSocket.unread)
      ensures received.Some? ==>
        var (l, answer) := (received.value, serverSocket.kernel(old(serverSocket.calls)));
        && answer.Shows? && l == Min(Min(n, |old(serverSocket.unread)|), answer.n)
        && buffer.value == old(buffer).value + old(serverSocket.unread)[..l]
        && serverSocket.unread == old(serverSocket.unread)[l..]
    {
      var bytes := serverSocket.Peek(n);
      if bytes.None? {
        return None;
      }
      buffer := Some(buffer.value + bytes.value);
      serverSocket.Take(|bytes.value|);
      return Some(|bytes.value|);
    }

    /** The loop that copies chunk data; the bytes shown are never more than the chunk still owes. */
    method CopyData(len: nat) returns (left: nat, pause: Pause)
      requires Chunked() && mode.next >= 0
      modifies this`buffer, this`mode, serverSocket
      ensures Chunked() && left <= len && |Contents()| == |old(Contents())| + len - left
      ensures |serverSocket.unread| + (len - left) == |old(serverSocket.unread)|
        && mode.next + (len - left) == old(mode.next)
      ensures ChunkReads(old(DecoderState(mode)), old(serverSocket.unread), old(Contents()),
                         DecoderState(mode), serverSocket.unread, Contents())
      ensures pause == Go ==> mode.next == 0 && left > 0
      ensures pause.Broke? ==> pause.error == SocketError && CallFailed(serverSocket)
      ensures pause == Stop && serverSocket.Generous(SB_DATA_SIZE) ==> left == 0 || serverSocket.unread == []
      ensures serverSocket.unread == old(serverSocket.unread) && len > 0 ==>
        if pause == Go then serverSocket.calls == old(serverSocket.calls)
        else serverSocket.calls == old(serverSocket.calls) + 1
             && (pause == Stop ==> Quiet(serverSocket.kernel(old(serverSocket.calls)), |serverSocket.unread|, 1))
    {
      hide ChunkReads, MovedBy;
      left := len;
      ghost var (before, base, owed) := (serverSocket.unread, buffer.value, mode.next);
      MovedNothing(base, before);
      while left > 0 && mode.next > 0
        invariant Chunked() && left <= len && mode.next == owed - (len - left) >= 0
        invariant MovedBy(base, before, buffer.value, serverSocket.unread, len - left)
        invariant left == len ==> serverSocket.calls == old(serverSocket.calls)
        decreases left
      {
        ghost var (now, unread) := (buffer.value, serverSocket.unread);
        var s := Min(Min(mode.next, left), SB_DATA_SIZE);
        var received := Receive(s);
        if received.None? {
          MovedReads(owed, before, base, now, unread, len - left);
          return left, Broke(SocketError);
        }
        var l := received.value;
        MovedMore(base, before, now, unread, len - left, l);
        mode, left := mode.(next := mode.next - l), left - l;
        if l < s {
          MovedReads(owed, before, base, buffer.value, serverSocket.unread, len - left);
          return left, Stop;
        }
      }
      MovedReads(owed, before, base, buffer.value, serverSocket.unread, len - left);
      return left, if left == 0 then Stop else Go;
    }

    /** Peeks for a whole size line: its digits, and how many bytes it takes up. */
    method FindSizeLine(first: bool) returns (pause: Pause, hex: seq<byte>, size: nat)
      modifies serverSocket`calls
      ensures serverSocket.calls == old(serverSocket.calls) + 1
      ensures var (s, answer) := (serverSocket.unread, serverSocket.kernel(old(serverSocket.calls)));
        match pause
        case Go => 2 <= size <= |s|
        case Stop => answer.Shows? && Min(Min(19, |s|), answer.n) < if first then 3 else 5
        case Broke(SocketError) => answer.Fails?
        case Broke(e) =>
          e == MalformedChunkEncoding && answer.Shows? && Min(Min(19, |s|), answer.n) >= if first then 3 else 5
      ensures var (s, answer) := (serverSocket.unread, serverSocket.kernel(old(serverSocket.calls)));
        answer.Shows? ==> FoundLine(first, s[..Min(Min(19, |s|), answer.n)], pause, hex, size)
      ensures After(if first then START else Data(0), serverSocket.unread) != Bad ==>
        var (s, start) := (serverSocket.unread, if first then 0 else 2);
        && (pause == Go ==>
              SizeLineIs(first, s, |hex|) && size == start + |hex| + 2 && hex == s[start..start + |hex|])
        && (pause == Broke(MalformedChunkEncoding) ==>
            HeaderCut(first, s, serverSocket.kernel(old(serverSocket.calls)).n))
    {
      hide After, HexRun, FindCrlf, SizeLineIs;
      var peeked := serverSocket.Peek(19);
      if peeked.None? {
        return Broke(SocketError), [], 0;
      }
      var b := peeked.value;
      if |b| < Threshold(first) {
        return Stop, [], 0;
      }
      SizeLineSeen(first, serverSocket.unread, |b|);
      assert b == serverSocket.unread[..|b|];
      var start := 0;
      if !first {
        start := FindCrlf(b);
        if start < 0 {
          return Broke(MalformedChunkEncoding), [], 0;
        }
        start := start + 2;
      }
      var finish := FindCrlf(b[start..]);
      if finish < 0 {
        return Broke(MalformedChunkEncoding), [], 0;
      }
      assert b[start..start + finish] == serverSocket.unread[start..start + finish];
      return Go, b[start..start + finish], start + finish + 2;
    }

    /**
     The parse step: one size line, with the line end before it unless it is the first. A stream that
     is not bad is read exactly as the reference decoder reads it, and only a peek that cuts the line
     short makes it look malformed.
     */
    method ParseSizeLine() returns (pause: Pause)
      requires Chunked() && mode.next <= 0
      modifies this`mode, serverSocket
      ensures serverSocket.calls == old(serverSocket.calls) + 1
      ensures var (before, n) := (old(serverSocket.unread), |old(serverSocket.unread)| - |serverSocket.unread|);
        && n >= 0 && serverSocket.unread == before[n..]
        && (if pause == Go then mode.ChunkLength? && mode.next > 0 && n > 0
            else (n == 0 && mode == old(mode)) || (n > 0 && pause == Stop && mode == Complete))
      ensures ChunkReads(old(DecoderState(mode)), old(serverSocket.unread), Contents(),
                         DecoderState(mode), serverSocket.unread, Contents())
      ensures mode == Complete && After(DecoderState(old(mode)), old(serverSocket.unread)) != Bad ==>
        JustDone(DecoderState(old(mode)), old(serverSocket.unread), serverSocket.unread)
      ensures mode != Complete ==> ParsePaused(pause, old(mode.next) < 0, old(serverSocket.unread),
                                               serverSocket.kernel(old(serverSocket.calls)))
      ensures pause == Broke(IllegalHexCharacter) ==> After(DecoderState(old(mode)), old(serverSocket.unread)) == Bad
    {
      hide After, Out, HexRun, HexFrom, AllHex;
      assert Contents()[|Contents()|..] == [];
      var found, hex, size := FindSizeLine(mode.next < 0);
      if found != Go {
        ChunkReadsNothing(DecoderState(mode), serverSocket.unread, Contents());
        return found;
      }
      var value := HexToSize(hex);
      if value.None? {
        ChunkReadsNothing(DecoderState(mode), serverSocket.unread, Contents());
        return Broke(IllegalHexCharacter);
      }
      serverSocket.Take(size);
      if value.value > 0 {
        mode := mode.(next := value.value);
        return Go;
      }
      mode := Complete;
      return Stop;
    }

    /** One chunk of recvBufferAppendChunk: its size line, and as much of its data as there is and is asked for. */
    method ReadChunk(len: nat) returns (left: nat, pause: Pause)
      requires Chunked() && mode.next <= 0
      modifies this`buffer, this`mode, serverSocket
      ensures buffer.Some? && (Chunked() || mode == Complete)
      ensures left <= len && |Contents()| == |old(Contents())| + len - left
      ensures ChunkReads(old(DecoderState(mode)), old(serverSocket.unread), old(Contents()),
                         DecoderState(mode), serverSocket.unread, Contents())
      ensures pause == Go ==> Chunked() && mode.next == 0 && |serverSocket.unread| < |old(serverSocket.unread)|
      ensures pause.Broke? ==> AppendBroke(pause.error, mode, serverSocket)
      ensures pause.Broke? && pause.error != SocketError ==> mode.ChunkLength? && mode.next <= 0
      ensures mode == Complete && After(old(DecoderState(mode)), old(serverSocket.unread)) != Bad ==>
        JustDone(old(DecoderState(mode)), old(serverSocket.unread), serverSocket.unread)
      ensures pause == Stop && serverSocket.Generous(PEEK_MAX) ==> Settled(mode, left, serverSocket.unread)
      ensures serverSocket.unread == old(serverSocket.unread) ==>
        pause != Go && serverSocket.calls == old(serverSocket.calls) + 1
        && (pause == Stop ==>
              Quiet(serverSocket.kernel(old(serverSocket.calls)), |serverSocket.unread|, Threshold(old(mode.next) < 0)))
    {
      hide After, Out, Reads, ChunkReads, HexRun, HeaderCut, JustDone;
      ghost var (st, before, base) := (DecoderState(mode), serverSocket.unread, Contents());
      left := len;
      pause := ParseSizeLine();
      if pause == Go {
        ghost var (st1, unread1, now1) := (DecoderState(mode), serverSocket.unread, Contents());
        left, pause := CopyData(left);
        ChunkReadsTrans(st, before, base, st1, unread1, now1, DecoderState(mode), serverSocket.unread, Contents());
      }
    }

    /**
     recvBufferAppendChunk: appends at most `len` bytes of payload, whatever the socket shows when. On
     any stream that is not bad it stays in step with the reference decoder, also when it returns an
     error, and COMPLETE means that the decoder is done. If the kernel shows all there is and the body
     is all there, it appends exactly the first `len` bytes of the rest of the payload.
     */
    method AppendChunk(len: nat) returns (error: Option<Error>)
      requires Chunked()
      modifies this`buffer, this`mode, serverSocket
      ensures buffer.Some? && (Chunked() || mode == Complete)
      ensures |Contents()| <= |old(Contents())| + len
      ensures ChunkReads(old(DecoderState(mode)), old(serverSocket.unread), old(Contents()),
                         DecoderState(mode), serverSocket.unread, Contents())
      ensures mode == Complete && After(old(DecoderState(mode)), old(serverSocket.unread)) != Bad ==>
        JustDone(old(DecoderState(mode)), old(serverSocket.unread), serverSocket.unread)
      ensures error.Some? ==> AppendBroke(error.value, mode, serverSocket)
      ensures serverSocket.Generous(PEEK_MAX) && After(old(DecoderState(mode)), old(serverSocket.unread)) == Done ==>
        error == None && WholeRead(Out(old(DecoderState(mode)), old(serverSocket.unread)), len, old(Contents()),
          Contents(), mode)
      ensures serverSocket.unread == old(serverSocket.unread) && error == None && len > 0 ==>
        serverSocket.calls == old(serverSocket.calls) + 1
        && Quiet(serverSocket.kernel(old(serverSocket.calls)), |serverSocket.unread|, Needed(old(mode.next)))
    {
      hide After, Out, Reads, ChunkReads, HexRun, HeaderCut, WholeRead, JustDone;
      ghost var (st, before, base) := (DecoderState(mode), serverSocket.unread, Contents());
      var left: nat, pause := len, Go;
      ChunkReadsNothing(st, before, base);
      if mode.next >= 0 {
        left, pause := CopyData(left);
      }
      while pause == Go
        invariant buffer.Some? && (Chunked() || (mode == Complete && pause != Go)) && (pause == Go ==> mode.next <= 0)
        invariant |Contents()| == |base| + len - left
        invariant ChunkReads(st, before, base, DecoderState(mode), serverSocket.unread, Contents())
        invariant mode == Complete && After(st, before) != Bad ==> JustDone(st, before, serverSocket.unread)
        invariant pause.Broke? ==> AppendBroke(pause.error, mode, serverSocket)
        invariant pause.Broke? && pause.error != SocketError ==> mode.ChunkLength? && mode.next <= 0
        invariant pause == Stop && serverSocket.Generous(PEEK_MAX) ==> Settled(mode, left, serverSocket.unread)
        invariant serverSocket.unread == before && len > 0 ==>
          if pause == Go then serverSocket.calls == old(serverSocket.calls) && mode.next == old(mode.next)
          else serverSocket.calls == old(serverSocket.calls) + 1
               && (pause == Stop ==>
                   Quiet(serverSocket.kernel(old(serverSocket.calls)), |before|, Needed(old(mode.next))))
        decreases |serverSocket.unread|, if pause == Go then 1 else 0
      {
        ghost var (st1, unread1, now1) := (DecoderState(mode), serverSocket.unread, Contents());
        ShorterRest(st, before, base, st1, unread1, now1);
        left, pause := ReadChunk(left);
        ChunkReadsTrans(st, before, base, st1, unread1, now1, DecoderState(mode), serverSocket.unread, Contents());
        ShorterRest(st1, unread1, now1, DecoderState(mode), serverSocket.unread, Contents());
        if mode == Complete && After(st, before) != Bad {
          DoneExactly(st, before, base, st1, unread1, now1, serverSocket.unread);
        }
      }
      if serverSocket.Generous(PEEK_MAX) && After(st, before) == Done {
        SettledIsWhole(st, before, base, mode, left, serverSocket.unread, Contents(), len);
        DoneFromHere(st, before, base, DecoderState(mode), serverSocket.unread, Contents());
        if mode.ChunkLength? && mode.next <= 0 && serverSocket.calls > 0 {
          HeaderNotCut(mode.next < 0, serverSocket.unread, serverSocket.kernel(serverSocket.calls - 1).n);
        }
      }
      error := if pause.Broke? then Some(pause.error) else None;
    }
  }

  /** `i` bytes have moved from `before` to the end of `base`. */
  ghost predicate MovedBy(base: seq<byte>, before: seq<byte>, now: seq<byte>, unread: seq<byte>, i: nat) {
    i <= |before| && now == base + before[..i] && unread == before[i..]
  }

  lemma MovedNothing(base: seq<byte>, before: seq<byte>)
    ensures MovedBy(base, before, base, before, 0)
  {
  }

  lemma MovedMore(base: seq<byte>, before: seq<byte>, now: seq<byte>, unread: seq<byte>, i: nat, l: nat)
    requires MovedBy(base, before, now, unread, i) && l <= |unread|
    ensures MovedBy(base, before, now + unread[..l], unread[l..], i + l)
  {
    TakeMore(base, before, i, l);
  }

  /** Moving bytes of a chunk is reading them. */
  lemma MovedReads(n: nat, before: seq<byte>, base: seq<byte>, now: seq<byte>, unread: seq<byte>, i: nat)
    requires MovedBy(base, before, now, unread, i) && i <= n
    ensures ChunkReads(Data(n), before, base, Data(n - i), unread, now)
    ensures |now| == |base| + i && |unread| + i == |before| && (i == 0 ==> now == base && unread == before)
  {
    CopyReads(n, before, base, i);
  }

  lemma ShorterRest(st: State, before: seq<byte>, base: seq<byte>, st': State, unread: seq<byte>, now: seq<byte>)
    requires ChunkReads(st, before, base, st', unread, now)
    ensures |unread| <= |before| && (|unread| == |before| ==> unread == before)
  {
  }

  /** The kernel has shown too little for a step of the reader, or there is too little. */
  predicate Quiet(answer: Answer, unread: nat, needed: nat) {
    answer.Shows? && (answer.n < needed || unread < needed)
  }

  lemma DoneExactly(st: State, before: seq<byte>, base: seq<byte>, st1: State, unread1: seq<byte>, now1: seq<byte>,
                    end: seq<byte>)
    requires ChunkReads(st, before, base, st1, unread1, now1) && After(st, before) != Bad
    requires After(st1, unread1) != Bad ==> JustDone(st1, unread1, end)
    ensures JustDone(st, before, end)
  {
    ReadsRest(st, before, st1, unread1, now1[|base|..]);
    JustDoneLater(st, before, st1, unread1, now1[|base|..], end);
  }

  /** Nothing holds an append up any more: it has all it asked for, or all there is. */
  predicate Settled(mode: Mode, left: nat, unread: seq<byte>) {
    mode == Complete || left == 0 || unread == [] || (mode.ChunkLength? && |unread| < Threshold(mode.next < 0))
  }

  lemma DoneFromHere(st: State, before: seq<byte>, base: seq<byte>, st': State, unread: seq<byte>, now: seq<byte>)
    requires ChunkReads(st, before, base, st', unread, now) && After(st, before) != Bad
    ensures After(st', unread) == After(st, before) && Out(st, before) == now[|base|..] + Out(st', unread)
  {
    ReadsRest(st, before, st', unread, now[|base|..]);
  }

  /** With the rest of the body there, a size line is never cut by a peek of 19 bytes. */
  lemma HeaderNotCut(first: bool, s: seq<byte>, n: nat)
    requires After(if first then START else Data(0), s) == Done && n >= 19
    ensures !HeaderCut(first, s, n)
  {
    if first {
      SizeLineShape(s);
      StartToCome(s);
    } else {
      StillToCome(Data(0), s);
      LineEndShape(s);
      assert s[..2] == [s[0], s[1]];
      LineEnd(s);
      SizeLineShape(s[2..]);
      StartToCome(s[2..]);
    }
  }

  lemma SettledIsWhole(st: State, before: seq<byte>, base: seq<byte>, mode: Mode, left: nat, unread: seq<byte>,
                       now: seq<byte>, len: nat)
    requires ChunkReads(st, before, base, DecoderState(mode), unread, now) && After(st, before) == Done
    requires |now| + left == |base| + len
    requires mode == Complete || (mode.ChunkLength? && mode.next >= -1)
    ensures Settled(mode, left, unread) ==> WholeRead(Out(st, before), len, base, now, mode)
  {
    DoneFromHere(st, before, base, DecoderState(mode), unread, now);
    var added := now[|base|..];
    assert now == base + added;
    if mode == Complete {
      DoneStays(unread);
    } else {
      StillToCome(DecoderState(mode), unread);
    }
    hide After, Out, ChunkReads;
    if Settled(mode, left, unread) {
      assert Out(st, before)[..|added|] == added;
    }
  }

  const PEEK_MAX: nat := if SB_DATA_SIZE < 19 then 19 else SB_DATA_SIZE

  /** The last `recv` failed. */
  ghost predicate CallFailed(socket: RecvSocket)
    reads socket
  {
    socket.calls > 0 && socket.kernel(socket.calls - 1).Fails?
  }

  /** Why an append returns an error: the socket, a peek that cut a size line short, or a bad stream. */
  ghost predicate AppendBroke(error: Error, mode: Mode, socket: RecvSocket)
    reads socket
  {
    match error
    case SocketError => CallFailed(socket)
    case MalformedChunkEncoding =>
      After(DecoderState(mode), socket.unread) != Bad ==>
        mode.ChunkLength? && socket.calls > 0 && socket.kernel(socket.calls - 1).Shows?
        && HeaderCut(mode.next < 0, socket.unread, socket.kernel(socket.calls - 1).n)
    case IllegalHexCharacter => After(DecoderState(mode), socket.unread) == Bad
    case _ => false
  }

  /** `now` is `base` and the first `len` bytes of `payload`, and the reader knows it when it has them all. */
  predicate WholeRead(payload: seq<byte>, len: nat, base: seq<byte>, now: seq<byte>, mode: Mode) {
    now == base + payload[..Min(len, |payload|)] && (len > |payload| ==> mode == Complete)
  }

  /** Why the parse step paused, in terms of the kernel's answer to its peek. */
  ghost predicate ParsePaused(pause: Pause, first: bool, s: seq<byte>, answer: Answer) {
    match pause
    case Go => true
    case Stop => answer.Shows? && Min(Min(19, |s|), answer.n) < Threshold(first)
    case Broke(SocketError) => answer.Fails?
    case Broke(MalformedChunkEncoding) =>
      After(if first then START else Data(0), s) != Bad ==> answer.Shows? && HeaderCut(first, s, answer.n)
    case Broke(e) => e == IllegalHexCharacter
  }

  /** A peek that shows fewer bytes than this is taken to mean that the size line is not there yet. */
  function Threshold(first: bool): nat { if first then 3 else 5 }

  /** How many bytes the reader has to be shown to go on: any in a chunk, and otherwise part of a size line. */
  function Needed(next: int): nat { if next > 0 then 1 else Threshold(next < 0) }

  /** Where the size line at the head of `s` ends. */
  function HeaderSize(first: bool, s: seq<byte>): nat {
    if first then HexRun(s) + 2 else if |s| < 2 then 4 else HexRun(s[2..]) + 4
  }

  /** A peek of `n` bytes shows part of the size line, but not all of it. */
  predicate HeaderCut(first: bool, s: seq<byte>, n: nat) {
    Threshold(first) <= Min(Min(19, |s|), n) < HeaderSize(first, s)
  }

  /** What the parse step finds in the first `k` bytes of a stream that is not bad. */
  lemma SizeLineSeen(first: bool, s: seq<byte>, k: nat)
    requires Threshold(first) <= k <= |s|
    ensures After(if first then START else Data(0), s) != Bad ==>
      var start := if first then 0 else 2;
      var (b, h) := (s[..k], HexRun(s[start..]));
      && (!first ==> FindCrlf(b) == 0)
      && FindCrlf(b[start..]) == (if HeaderSize(first, s) <= k then h else -1)
      && (HeaderSize(first, s) <= k ==> SizeLineIs(first, s, h))
  {
    hide HexRun, After, Out, FindCrlf, SizeLineIs;
    if After(if first then START else Data(0), s) != Bad {
      if first {
        assert s[0..] == s && s[..k][0..] == s[..k];
        SizeLineInView(s, k);
        if HeaderSize(first, s) <= k {
          SizeLineReads(s);
        }
      } else {
        LineEndShape(s);
        LineEndFirst(s[..k]);
        assert s[..k][2..] == s[2..][..k - 2];
        SizeLineInView(s[2..], k - 2);
        if HeaderSize(first, s) <= k {
          SizeLineReads(s[2..]);
          BehindLineEnd(s, HexRun(s[2..]));
        }
      }
    }
  }

  lemma LineEndFirst(s: seq<byte>)
    requires |s| >= 2 && s[0] == CR && s[1] == LF
    ensures FindCrlf(s) == 0
  {
  }

  /** The size line at the head of `s` has `h` digits and takes the decoder to their value. */
  predicate SizeLineIs(first: bool, s: seq<byte>, h: nat) {
    var start := if first then 0 else 2;
    && 0 < h <= MAX_DIGITS && start + h + 2 <= |s| && AllHex(s[start..start + h])
    && var (st, n, line) := (if first then START else Data(0), HexFrom(0, s[start..start + h]), s[..start + h + 2]);
       && After(st, line) == (if n == 0 then Done else Data(n)) && Out(st, line) == [] && n < SIZE_MODULUS
       && After(st, s[..start + h + 1]) == SizeLF(n)
  }

  /** What a peek that shows `b` makes of it: between its first two line ends, or in front of the first one. */
  predicate FoundLine(first: bool, b: seq<byte>, pause: Pause, hex: seq<byte>, size: nat) {
    var start := if first then 0 else FindCrlf(b) + 2;
    |b| >= (if first then 3 else 5) ==>
      if (!first && FindCrlf(b) < 0) || FindCrlf(b[start..]) < 0 then pause == Broke(MalformedChunkEncoding)
      else pause == Go && size == start + |hex| + 2 && hex == b[start..start + FindCrlf(b[start..])]
  }

  lemma BehindLineEnd(s: seq<byte>, h: nat)
    requires |s| >= 2 && s[0] == CR && s[1] == LF && SizeLineIs(true, s[2..], h)
    ensures SizeLineIs(false, s, h)
  {
    var line := s[..h + 4];
    assert line[..2] == [CR, LF];
    LineEnd(line);
    assert line[2..] == s[2..][..h + 2] && s[2..][0..h] == s[2..2 + h];
    var short := s[..h + 3];
    assert short[..2] == [CR, LF];
    LineEnd(short);
    assert short[2..] == s[2..][..h + 1];
  }

  lemma LineSlices(s: seq<byte>, h: nat)
    requires h + 2 <= |s| && s[h] == CR && s[h + 1] == LF
    ensures s[..h + 1] == s[..h] + [CR] && s[..h + 2] == s[..h] + CRLF && s[0..0 + h] == s[..h]
  {
  }

  lemma SizeLineFrom(s: seq<byte>, hex: seq<byte>)
    requires 0 < |hex| <= MAX_DIGITS && |hex| + 2 <= |s| && AllHex(hex)
    requires s[..|hex| + 1] == hex + [CR] && s[..|hex| + 2] == hex + CRLF && s[0..0 + |hex|] == hex
    ensures SizeLineIs(true, s, |hex|)
  {
    hide After, Out, HexFrom, AllHex;
    SizeLineRead(hex);
    HexFits(hex);
  }

  lemma SizeLineReads(s: seq<byte>)
    requires After(START, s) != Bad && HexRun(s) + 2 <= |s|
    ensures SizeLineIs(true, s, HexRun(s))
  {
    SizeLineShape(s);
    hide HexRun, After, Out, HexFrom, AllHex, SizeLineIs;
    var h := HexRun(s);
    LineSlices(s, h);
    SizeLineFrom(s, s[..h]);
  }

  lemma HexFits(hex: seq<byte>)
    requires AllHex(hex) && |hex| <= MAX_DIGITS
    ensures HexFrom(0, hex) < SIZE_MODULUS
  {
    hide HexFrom, Power16;
    HexFromBound(hex);
    PowerGrows(|hex|, MAX_DIGITS);
    WindowBound();
  }
}
