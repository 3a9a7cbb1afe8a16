/**
 Looking for a token in a stream that arrives piecemeal, and splitting a response into its header and
 the rest (src/client/recvbufr.c, ioHttpResponseHeaderRead in src/client/io.c).
 */
module HeaderSplit {
  import opened Bytes
  import opened ChunkDecoder
  import opened RecvBuffers

  predicate SameLetters(a: seq<byte>, b: seq<byte>) {
    |a| == |b| && forall k :: 0 <= k < |a| ==> Upper(a[k]) == Upper(b[k])
  }

  /** The token is at `i`, letters in either case. */
  predicate MatchAt(s: seq<byte>, token: seq<byte>, i: int) {
    0 <= i && i + |token| <= |s| && SameLetters(s[i..i + |token|], token)
  }

  /** A token in one case is found wherever it is found in any other. */
  lemma EitherCaseMatches(s: seq<byte>, token: seq<byte>, other: seq<byte>, i: int)
    requires |other| == |token| && forall k :: 0 <= k < |token| ==> SameLetter(other[k], token[k])
    ensures MatchAt(s, token, i) <==> MatchAt(s, other, i)
    ensures MatchAt(s, token, i) <==>
      0 <= i && i + |token| <= |s| && forall k :: 0 <= k < |token| ==> SameLetter(s[i + k], token[k])
  {
    forall k | 0 <= k < |token|
      ensures Upper(other[k]) == Upper(token[k])
    {
      UpperIs(other[k], token[k]);
    }
    if 0 <= i && i + |token| <= |s| {
      forall k | 0 <= k < |token|
        ensures Upper(s[i + k]) == Upper(token[k]) <==> SameLetter(s[i + k], token[k])
      {
        UpperIs(s[i + k], token[k]);
      }
      var here := s[i..i + |token|];
      assert forall k :: 0 <= k < |token| ==> here[k] == s[i + k];
    }
  }

  ghost predicate NoMatch(s: seq<byte>, token: seq<byte>) {
    forall i :: !MatchAt(s, token, i)
  }

  ghost predicate FirstMatch(s: seq<byte>, token: seq<byte>, m: int) {
    MatchAt(s, token, m) && forall i :: i < m ==> !MatchAt(s, token, i)
  }

  /** A match in a window of the stream is a match in the stream. */
  lemma MatchInWindow(s: seq<byte>, token: seq<byte>, from: nat, to: nat, i: int)
    requires from <= to <= |s|
    ensures MatchAt(s[from..to], token, i) <==> i >= 0 && from + i + |token| <= to && MatchAt(s, token, from + i)
  {
    if 0 <= i && from + i + |token| <= to {
      SliceOfSlice(s, from, to, i, |token|);
    }
  }

  /**
   The sliding window: having looked at everything up to `seen` and found nothing, keeping at least as
   many bytes as the token has is enough. The first match in the window is the first in the stream.
   */
  lemma WindowKeepsMatches(s: seq<byte>, token: seq<byte>, from: nat, seen: nat, to: nat)
    requires from <= seen <= to <= |s| && (from == 0 || |token| <= seen - from)
    requires NoMatch(s[..seen], token)
    ensures NoMatch(s[from..to], token) <==> NoMatch(s[..to], token)
    ensures forall m :: FirstMatch(s[from..to], token, m) ==> FirstMatch(s, token, from + m)
  {
    assert s[..seen] == s[0..seen] && s[..to] == s[0..to];
    var window, whole := s[from..to], s[..to];
    forall i | MatchAt(window, token, i)
      ensures MatchAt(whole, token, from + i)
    {
      MatchInWindow(s, token, from, to, i);
      MatchInWindow(s, token, 0, to, from + i);
    }
    forall i | MatchAt(whole, token, i)
      ensures MatchAt(window, token, i - from)
    {
      MatchInWindow(s, token, 0, to, i);
      MatchInWindow(s, token, 0, seen, i);
      MatchInWindow(s, token, from, to, i - from);
    }
    forall i | i < from
      ensures !MatchAt(s, token, i)
    {
      MatchInWindow(s, token, 0, seen, i);
    }
    forall m | FirstMatch(s[from..to], token, m)
      ensures FirstMatch(s, token, from + m)
    {
      MatchInWindow(s, token, from, to, m);
      forall i | i < from + m
        ensures !MatchAt(s, token, i)
      {
        MatchInWindow(s, token, from, to, i - from);
      }
    }
  }

  // ---- what a reader has ahead of it

  /**
   What the reader will still deliver: in the chunk mode the rest of the payload, and otherwise what is on
   the socket. `chunked` tells how the search began, for COMPLETE looks the same in both.
   */
  function Ahead(chunked: bool, mode: Mode, unread: seq<byte>): seq<byte> {
    if chunked then Out(DecoderState(mode), unread) else unread
  }

  ghost function Rest(chunked: bool, self: RecvBuffer): seq<byte>
    reads self, self.serverSocket
  {
    Ahead(chunked, self.mode, self.serverSocket.unread)
  }

  ghost predicate InMode(chunked: bool, mode: Mode) {
    if chunked then mode == Complete || (mode.ChunkLength? && mode.next >= -1) else !mode.ChunkLength?
  }

  /** Where the rest of the stream takes the reference decoder; without chunks there is nothing to decode. */
  ghost function Fate(chunked: bool, self: RecvBuffer): State
    reads self, self.serverSocket
  {
    if chunked then After(DecoderState(self.mode), self.serverSocket.unread) else Done
  }

  /** The reader has bytes to deliver, or the end of the body to find. */
  ghost predicate StillAhead(chunked: bool, self: RecvBuffer)
    reads self, self.serverSocket
  {
    Fate(chunked, self) == Done || (Fate(chunked, self) != Bad && Rest(chunked, self) != [])
  }

  /** What a fetch leaves: bytes moved from ahead to the end of the buffer, in order. */
  ghost predicate Fetched(base: seq<byte>, before: seq<byte>, now: seq<byte>, ahead: seq<byte>) {
    |base| <= |now| && now + ahead == base + before && base <= now
  }

  lemma MovedIsFetched(base: seq<byte>, before: seq<byte>, i: nat)
    requires i <= |before|
    ensures Fetched(base, before, base + before[..i], before[i..])
  {
    assert before[..i] + before[i..] == before;
  }

  /** A reader told to stop at `token` has not, or has seen one. */
  ghost predicate Armed(mode: Mode, token: seq<byte>, seen: seq<byte>) {
    mode == TokenLength(token) || (mode == Complete && !NoMatch(seen, token))
  }

  /** The reader is told how much there is to come, or that there is nothing, and no more is on the socket. */
  predicate Covers(mode: Mode, unread: seq<byte>) {
    (mode == Complete && unread == []) || (mode.KnownLength? && mode.escape + |unread| <= mode.total)
  }

  /** The reader stops by itself only at the token, or when there is nothing left. */
  ghost predicate Told(mode: Mode, token: seq<byte>, seen: seq<byte>, unread: seq<byte>) {
    Armed(mode, token, seen) || Covers(mode, unread)
  }

  /** The kernel never fails, and never says that there is nothing as long as there is something. */
  ghost predicate Steady(socket: RecvSocket) {
    forall i: nat :: socket.kernel(i).Shows? && socket.kernel(i).n > 0
  }

  lemma SteadyAnswer(socket: RecvSocket, i: nat)
    ensures Steady(socket) ==> socket.kernel(i).Shows? && socket.kernel(i).n > 0
  {
  }

  /** The kernel shows all there is, or as much as any fetch asks for. */
  ghost predicate Willing(socket: RecvSocket) {
    socket.Generous(PEEK_MAX)
  }

  // ---- recvBufferAppend

  /** Why a fetch returns an error. */
  ghost predicate FetchBroke(error: Error, mode: Mode, socket: RecvSocket)
    reads socket
  {
    match error
    case RequestCompleted => mode == Complete
    case NoDataToBeRetrieved => OutOfData(socket)
    case _ => AppendBroke(error, mode, socket)
  }

  /** The last `recv` gave no byte: there are none left, or the kernel showed none. */
  ghost predicate OutOfData(socket: RecvSocket)
    reads socket
  {
    || socket.unread == []
    || (socket.calls > 0 && var answer := socket.kernel(socket.calls - 1);
                            answer.Shows? && answer.n == 0)
  }

  /** How much the kernel's next answer gives to a fetch of `len` bytes. */
  ghost function FirstPiece(socket: RecvSocket, len: nat): nat
    reads socket
  {
    var answer := socket.kernel(socket.calls);
    if answer.Shows? then Min(Min(Min(len, SB_DATA_SIZE), |socket.unread|), answer.n) else 0
  }

  /** One turn of the loop: what the kernel shows goes to the end of the buffer, and is counted. */
  method AppendPiece(self: RecvBuffer, n: nat) returns (l: nat, finished: bool, error: Option<Error>)
    requires n > 0 && self.buffer.Some? && !self.mode.ChunkLength? && self.mode != Complete
    modifies self`buffer, self`mode, self.serverSocket
    ensures self.buffer.Some? && !self.mode.ChunkLength? && l <= |old(self.serverSocket.unread)|
    ensures self.buffer.value == old(self.buffer.value) + old(self.serverSocket.unread)[..l]
    ensures self.serverSocket.unread == old(self.serverSocket.unread)[l..]
    ensures self.serverSocket.calls == old(self.serverSocket.calls) + 1
    ensures error.Some? ==> error == Some(SocketError) && l == 0 && CallFailed(self.serverSocket)
    ensures l == 0 ==>
      self.mode == old(self.mode) && !finished && self.buffer.value == old(self.buffer.value)
      && self.serverSocket.unread == old(self.serverSocket.unread)
    ensures l == 0 && error == None ==>
      OutOfData(self.serverSocket) && (Steady(self.serverSocket) ==> self.serverSocket.unread == [])
    ensures var answer := self.serverSocket.kernel(old(self.serverSocket.calls));
      l == if answer.Shows? then Min(Min(n, |old(self.serverSocket.unread)|), answer.n) else 0
    ensures l > 0 ==> error == None && Counted(old(self.mode), l, self.buffer.value, finished, self.mode)
    ensures old(Covers(self.mode, self.serverSocket.unread)) ==>
      Covers(self.mode, self.serverSocket.unread) && (finished ==> self.serverSocket.unread == [])
  {
    hide Steady, NoMatch;
    SteadyAnswer(self.serverSocket, self.serverSocket.calls);
    l, finished, error := 0, false, None;
    ghost var (base, before) := (self.buffer.value, self.serverSocket.unread);
    assert base + before[..0] == base && before[0..] == before;
    var received := self.Receive(n);
    if received.None? {
      error := Some(SocketError);
    } else {
      l := received.value;
      if l > 0 {
        finished := DataIncrement(self, l);
      }
    }
  }

  /** What DataIncrement makes of `added` bytes at the end of `now`. */
  ghost predicate Counted(mode: Mode, added: nat, now: seq<byte>, finished: bool, mode': Mode) {
    match mode
    case KnownLength(escape, total) =>
      finished == (escape + added >= total)
      && mode' == (if finished then Complete else KnownLength(escape + added, total))
    case TokenLength(token) =>
      finished == (token != [] && !NoMatch(now, token)) && mode' == (if finished then Complete else mode)
    case UnknownLength(escape, limit) =>
      finished == (escape + added >= limit) && mode' == UnknownLength(escape + added, limit)
    case other => !finished && mode' == mode
  }

  /** The loop has moved `i` bytes and goes on. */
  ghost predicate Going(mode: Mode, base: seq<byte>, before: seq<byte>, i: nat, mode': Mode, now: seq<byte>,
                        unread: seq<byte>) {
    && MovedBy(base, before, now, unread, i) && !mode'.ChunkLength? && mode' != Complete
    && (i == 0 ==> mode' == mode)
    && (mode.TokenLength? ==> mode' == mode && (i > 0 && mode.token != [] ==> NoMatch(now, mode.token)))
    && (Covers(mode, before) ==> Covers(mode', unread)) && (mode.UnknownLength? ==> mode'.UnknownLength?)
  }

  /** What the loop leaves when it returns an error; it finds nothing only if it has moved nothing. */
  ghost predicate Broken(mode: Mode, base: seq<byte>, before: seq<byte>, len: nat, mode': Mode, now: seq<byte>,
                         unread: seq<byte>, error: Error) {
    exists i: nat :: Going(mode, base, before, i, mode', now, unread) && i < len
                     && (error == NoDataToBeRetrieved ==> i == 0)
  }

  /** What the loop leaves when it returns without an error: how far it came, and why no further. */
  ghost predicate Stopped(mode: Mode, base: seq<byte>, before: seq<byte>, len: nat, mode': Mode, now: seq<byte>,
                          unread: seq<byte>, steady: bool) {
    && !mode'.ChunkLength? && |base| < |now| <= |base| + len && Fetched(base, before, now, unread)
    && (mode.TokenLength? ==>
          Armed(mode', mode.token, now) && (mode.token != [] && !NoMatch(now, mode.token) ==> mode' == Complete))
    && (Covers(mode, before) ==> Covers(mode', unread)) && (mode.UnknownLength? ==> mode'.UnknownLength?)
    && (steady && (mode.TokenLength? || Covers(mode, before)) ==>
          (mode.TokenLength? && !NoMatch(now, mode.token)) || |now| == Min(|base| + len, |base + before|))
  }

  /** The loop of recvBufferAppend outside the chunk mode. */
  method AppendRaw(self: RecvBuffer, len: nat) returns (error: Option<Error>)
    requires self.buffer.Some? && !self.mode.ChunkLength? && self.mode != Complete && len > 0
    modifies self`buffer, self`mode, self.serverSocket
    ensures self.buffer.Some? && !self.mode.ChunkLength?
    ensures error == None ==>
      Stopped(old(self.mode), old(self.Contents()), old(self.serverSocket.unread), len, self.mode, self.Contents(),
              self.serverSocket.unread, Steady(self.serverSocket))
    ensures error.Some? ==>
      && FetchBroke(error.value, self.mode, self.serverSocket) && error != Some(RequestCompleted)
      && Broken(old(self.mode), old(self.Contents()), old(self.serverSocket.unread), len, self.mode, self.Contents(),
                self.serverSocket.unread, error.value)
    ensures error == None && Willing(self.serverSocket) && len <= SB_DATA_SIZE
            && (old(self.mode).TokenLength? || old(Covers(self.mode, self.serverSocket.unread))) ==>
      |self.Contents()| == Min(|old(self.Contents())| + len, |old(self.Contents() + self.serverSocket.unread)|)
    ensures var l := old(FirstPiece(self.serverSocket, len));
      var first := old(self.Contents() + self.serverSocket.unread[..l]);
      l > 0 && old(self.mode).TokenLength? && old(self.mode).token != [] && !NoMatch(first, old(self.mode).token) ==>
        error == None && self.mode == Complete && self.Contents() == first
  {
    hide NoMatch, Steady, Going, Stopped, Counted, Covers;
    ghost var (base, before, mode) := (self.buffer.value, self.serverSocket.unread, self.mode);
    ghost var l0 := FirstPiece(self.serverSocket, len);
    GoingStarts(mode, base, before);
    var i := 0;
    while i < len
      invariant self.buffer.Some? && i <= len
      invariant Going(mode, base, before, i, self.mode, self.buffer.value, self.serverSocket.unread)
      invariant i == 0 ==> self.serverSocket.calls == old(self.serverSocket.calls)
      invariant i > 0 && mode.TokenLength? && mode.token != [] ==> l0 > 0 && NoMatch(base + before[..l0], mode.token)
      invariant Willing(self.serverSocket) && len <= SB_DATA_SIZE && i > 0 ==> i == Min(len, |before|)
    {
      ghost var (mode1, now, unread) := (self.mode, self.buffer.value, self.serverSocket.unread);
      GoingFacts(mode, base, before, i, mode1, now, unread);
      var l, finished;
      l, finished, error := AppendPiece(self, Min(len - i, SB_DATA_SIZE));
      assert i == 0 ==> l == l0;
      if error.Some? {
        assert Going(mode, base, before, i, self.mode, self.Contents(), self.serverSocket.unread);
        assert Broken(mode, base, before, len, self.mode, self.Contents(), self.serverSocket.unread, SocketError);
        return;
      }
      if l == 0 {
        assert Going(mode, base, before, i, self.mode, self.Contents(), self.serverSocket.unread);
        if i > 0 {
          StopsDry(mode, base, before, len, i, mode1, now, unread, Steady(self.serverSocket));
          return None;
        }
        return Some(NoDataToBeRetrieved);
      }
      PieceMoved(mode, base, before, len, i, l, mode1, now, unread, finished, self.mode, Steady(self.serverSocket));
      i := i + l;
      if finished {
        return None;
      }
    }
    GoingFacts(mode, base, before, len, self.mode, self.buffer.value, self.serverSocket.unread);
    StopsFull(mode, base, before, len, self.mode, self.buffer.value, self.serverSocket.unread,
              Steady(self.serverSocket));
    return None;
  }

  lemma GoingStarts(mode: Mode, base: seq<byte>, before: seq<byte>)
    requires !mode.ChunkLength? && mode != Complete
    ensures Going(mode, base, before, 0, mode, base, before)
  {
    MovedNothing(base, before);
  }

  lemma GoingFacts(mode: Mode, base: seq<byte>, before: seq<byte>, i: nat, mode': Mode, now: seq<byte>,
                   unread: seq<byte>)
    requires Going(mode, base, before, i, mode', now, unread)
    ensures i <= |before| && |now| == |base| + i && |unread| == |before| - i
    ensures !mode'.ChunkLength? && mode' != Complete && (mode.TokenLength? ==> mode' == mode)
    ensures i == 0 ==> now == base && unread == before && mode' == mode
    ensures (Covers(mode, before) ==> Covers(mode', unread)) && (mode.UnknownLength? ==> mode'.UnknownLength?)
    ensures Fetched(base, before, now, unread)
  {
    MovedFacts(base, before, now, unread, i);
    hide Fetched, NoMatch, Covers;
  }

  lemma PieceMoved(mode: Mode, base: seq<byte>, before: seq<byte>, len: nat, i: nat, l: nat, mode1: Mode,
                   now: seq<byte>, unread: seq<byte>, finished: bool, mode': Mode, steady: bool)
    requires Going(mode, base, before, i, mode1, now, unread) && 0 < l <= |unread| && i + l <= len
    requires Counted(mode1, l, now + unread[..l], finished, mode')
    requires Covers(mode1, unread) ==> Covers(mode', unread[l..]) && (finished ==> unread[l..] == [])
    ensures !finished ==> Going(mode, base, before, i + l, mode', now + unread[..l], unread[l..])
    ensures finished ==> Stopped(mode, base, before, len, mode', now + unread[..l], unread[l..], steady)
    ensures mode.TokenLength? && mode.token != [] ==>
      if finished then mode' == Complete else NoMatch(now + unread[..l], mode.token)
  {
    MovedMore(base, before, now, unread, i, l);
    MovedFacts(base, before, now + unread[..l], unread[l..], i + l);
    hide Fetched, NoMatch, Covers, MovedBy;
  }

  lemma StopsDry(mode: Mode, base: seq<byte>, before: seq<byte>, len: nat, i: nat, mode': Mode, now: seq<byte>,
                 unread: seq<byte>, steady: bool)
    requires Going(mode, base, before, i, mode', now, unread) && 0 < i < len && (steady ==> unread == [])
    ensures Stopped(mode, base, before, len, mode', now, unread, steady)
  {
    MovedFacts(base, before, now, unread, i);
    hide Fetched, NoMatch, Covers, MovedBy;
  }

  lemma StopsFull(mode: Mode, base: seq<byte>, before: seq<byte>, len: nat, mode': Mode, now: seq<byte>,
                  unread: seq<byte>, steady: bool)
    requires len > 0 && Going(mode, base, before, len, mode', now, unread)
    ensures Stopped(mode, base, before, len, mode', now, unread, steady)
  {
    MovedFacts(base, before, now, unread, len);
    hide Fetched, NoMatch, Covers, MovedBy;
  }

  lemma MovedFacts(base: seq<byte>, before: seq<byte>, now: seq<byte>, unread: seq<byte>, i: nat)
    requires MovedBy(base, before, now, unread, i)
    ensures Fetched(base, before, now, unread) && i <= |before| && now == base + before[..i]
    ensures |now| == |base| + i && |unread| == |before| - i && |base + before| == |base| + |before|
    ensures i == 0 ==> now == base && unread == before
  {
    MovedIsFetched(base, before, i);
  }

  /**
   recvBufferAppend, in every mode. Bytes move from what is ahead to the end of the buffer, in order; a chunked
   body that is not bad is decoded on the way. In the chunk mode a call may also do nothing, if the kernel
   shows too little, and it always does nothing at the end of a body that is cut short.
   */
  method Append(self: RecvBuffer, len: nat) returns (error: Option<Error>)
    requires len > 0 && (self.mode.ChunkLength? ==> self.mode.next >= -1)
    modifies self`buffer, self`mode, self.serverSocket
    ensures InMode(old(self.mode.ChunkLength?), self.mode)
    ensures old(Fate(self.mode.ChunkLength?, self)) != Bad ==>
      Fate(old(self.mode.ChunkLength?), self) == old(Fate(self.mode.ChunkLength?, self))
      && Fetched(old(self.Contents()), old(Rest(self.mode.ChunkLength?, self)),
                 self.Contents(), Rest(old(self.mode.ChunkLength?), self))
    ensures |self.Contents()| <= |old(self.Contents())| + len
    ensures error == None ==> self.buffer.Some?
    ensures error.Some? ==> FetchBroke(error.value, self.mode, self.serverSocket)
    ensures error == Some(RequestCompleted) || error == Some(NoDataToBeRetrieved) ==>
      self.Contents() == old(self.Contents()) && self.serverSocket.unread == old(self.serverSocket.unread)
      && self.mode == old(self.mode)
    ensures error == Some(RequestCompleted) <==> old(self.mode) == Complete
    ensures error == None ==>
      Moved(old(self.mode.ChunkLength?), old(self.serverSocket.unread), old(self.serverSocket.calls), self)
      || !old(StillAhead(self.mode.ChunkLength?, self))
    ensures error == None && !old(self.mode.ChunkLength?) ==> |self.Contents()| > |old(self.Contents())|
    ensures old(self.mode).TokenLength? ==> Armed(self.mode, old(self.mode).token, self.Contents())
    ensures error == None && old(self.mode).TokenLength? ==> self.mode == Complete || Unseen(old(self.mode), self)
    ensures old(self.mode).UnknownLength? ==> self.mode.UnknownLength?
    ensures old(Covers(self.mode, self.serverSocket.unread)) ==> Covers(self.mode, self.serverSocket.unread)
    ensures error == None && Steady(self.serverSocket)
            && (old(self.mode).TokenLength? || old(Covers(self.mode, self.serverSocket.unread))) ==>
      (old(self.mode).TokenLength? && !NoMatch(self.Contents(), old(self.mode).token))
      || |self.Contents()| == Min(|old(self.Contents())| + len, |old(self.Contents() + self.serverSocket.unread)|)
    ensures error == None && Willing(self.serverSocket) && len <= SB_DATA_SIZE
            && (old(self.mode).TokenLength? || old(Covers(self.mode, self.serverSocket.unread))) ==>
      |self.Contents()| == Min(|old(self.Contents())| + len, |old(self.Contents() + self.serverSocket.unread)|)
    ensures old(self.mode).ChunkLength? && Willing(self.serverSocket) && old(Fate(true, self)) == Done ==>
      error == None && |self.Contents()| == Min(|old(self.Contents())| + len, |old(self.Contents() + Rest(true, self))|)
    ensures old(self.mode).ChunkLength? && old(self.serverSocket.unread) == [] ==>
      self.Contents() == old(self.Contents()) && DecoderState(self.mode) == DecoderState(old(self.mode))
      && (error.Some? ==> error == Some(SocketError))
    ensures var l := old(FirstPiece(self.serverSocket, len));
      var first := old(self.Contents() + self.serverSocket.unread[..l]);
      l > 0 && old(self.mode).TokenLength? && old(self.mode).token != [] && !NoMatch(first, old(self.mode).token) ==>
        error == None && self.mode == Complete && self.Contents() == first
  {
    hide After, Out, Fetched, NoMatch, Steady, ChunkReads, JustDone, WholeRead, AppendBroke, Armed, Moved, Covers;
    ghost var (mode, before, base, calls) :=
      (self.mode, self.serverSocket.unread, self.Contents(), self.serverSocket.calls);
    if self.mode == Complete {
      NothingFetched(base, before);
      return Some(RequestCompleted);
    }
    if self.buffer.None? {
      self.buffer := Some([]);
    }
    if self.mode.ChunkLength? {
      ChunkCoversNothing(mode, before);
      error := self.AppendChunk(len);
      ChunkFetched(mode, before, base, self.mode, self.serverSocket.unread, self.Contents());
      ChunkMoved(mode, before, calls, self, error);
      if error.Some? {
        ChunkBroke(error.value, self.mode, self.serverSocket);
      }
      if before == [] {
        ChunkDry(mode, base, self, error);
      }
      if Willing(self.serverSocket) && After(DecoderState(mode), before) == Done {
        WholeSize(Out(DecoderState(mode), before), len, base, self.Contents(), self.mode);
      }
    } else {
      error := AppendRaw(self, len);
      if error == None {
        StoppedFacts(mode, base, before, len, self);
      } else {
        BrokenFacts(mode, base, before, len, self, error.value);
      }
      RawMoved(base, before, calls, self);
    }
  }

  lemma ChunkCoversNothing(mode: Mode, unread: seq<byte>)
    requires mode.ChunkLength?
    ensures !Covers(mode, unread)
  {
  }

  /** No token has come into the buffer. */
  ghost predicate Unseen(mode: Mode, self: RecvBuffer)
    requires mode.TokenLength?
    reads self
  {
    mode.token == [] || NoMatch(self.Contents(), mode.token)
  }

  lemma StoppedFacts(mode: Mode, base: seq<byte>, before: seq<byte>, len: nat, self: RecvBuffer)
    requires Stopped(mode, base, before, len, self.mode, self.Contents(), self.serverSocket.unread,
      Steady(self.serverSocket))
    ensures !self.mode.ChunkLength? && Fetched(base, before, self.Contents(), self.serverSocket.unread)
    ensures |base| < |self.Contents()| <= |base| + len
    ensures mode.TokenLength? ==> Armed(self.mode, mode.token, self.Contents())
    ensures mode.TokenLength? ==> self.mode == Complete || Unseen(mode, self)
    ensures Covers(mode, before) ==> Covers(self.mode, self.serverSocket.unread)
    ensures mode.UnknownLength? ==> self.mode.UnknownLength?
    ensures Steady(self.serverSocket) && (mode.TokenLength? || Covers(mode, before)) ==>
      (mode.TokenLength? && !NoMatch(self.Contents(), mode.token))
      || |self.Contents()| == Min(|base| + len, |base + before|)
  {
    hide Fetched, NoMatch, Covers, Steady, Armed;
  }

  lemma BrokenFacts(mode: Mode, base: seq<byte>, before: seq<byte>, len: nat, self: RecvBuffer, error: Error)
    requires Broken(mode, base, before, len, self.mode, self.Contents(), self.serverSocket.unread, error)
    ensures !self.mode.ChunkLength? && Fetched(base, before, self.Contents(), self.serverSocket.unread)
    ensures |self.Contents()| <= |base| + len
    ensures mode.TokenLength? ==> Armed(self.mode, mode.token, self.Contents())
    ensures Covers(mode, before) ==> Covers(self.mode, self.serverSocket.unread)
    ensures mode.UnknownLength? ==> self.mode.UnknownLength?
    ensures error == NoDataToBeRetrieved ==>
      self.Contents() == base && self.serverSocket.unread == before && self.mode == mode
  {
    var i: nat :| i < len && Going(mode, base, before, i, self.mode, self.Contents(), self.serverSocket.unread)
      && (error == NoDataToBeRetrieved ==> i == 0);
    GoingFacts(mode, base, before, i, self.mode, self.Contents(), self.serverSocket.unread);
    hide Going, Fetched, NoMatch, Covers;
  }

  lemma NothingFetched(base: seq<byte>, before: seq<byte>)
    ensures Fetched(base, before, base, before)
  {
  }

  /** The append has brought the search on: bytes were taken, or the kernel was asked once and showed too little. */
  ghost predicate Moved(chunked: bool, before: seq<byte>, calls: nat, self: RecvBuffer)
    reads self, self.serverSocket
  {
    || |self.serverSocket.unread| < |before|
    || (chunked && self.serverSocket.unread == before && self.serverSocket.calls == calls + 1
        && !ShowsAll(self.serverSocket.kernel(calls)))
  }

  predicate ShowsAll(answer: Answer) { answer.Shows? && answer.n >= PEEK_MAX }

  lemma RawMoved(base: seq<byte>, before: seq<byte>, calls: nat, self: RecvBuffer)
    requires Fetched(base, before, self.Contents(), self.serverSocket.unread)
    ensures |self.Contents()| > |base| ==> Moved(false, before, calls, self)
  {
    assert |self.Contents() + self.serverSocket.unread| == |base + before|;
  }

  lemma ChunkMoved(mode: Mode, before: seq<byte>, calls: nat, self: RecvBuffer, error: Option<Error>)
    requires mode.ChunkLength? && mode.next >= -1
    requires |self.serverSocket.unread| <= |before|
    requires |self.serverSocket.unread| == |before| ==> self.serverSocket.unread == before
    requires self.serverSocket.unread == before && error == None ==>
      self.serverSocket.calls == calls + 1 && Quiet(self.serverSocket.kernel(calls), |before|, Needed(mode.next))
    ensures error == None && (After(DecoderState(mode), before) == Done
              || (After(DecoderState(mode), before) != Bad && Out(DecoderState(mode), before) != [])) ==>
      Moved(true, before, calls, self)
  {
    var st := DecoderState(mode);
    hide After, Out;
    if After(st, before) == Done {
      StillToCome(st, before);
    } else if After(st, before) != Bad && Out(st, before) != [] {
      PayloadToCome(st, before);
    }
  }

  lemma ChunkBroke(error: Error, mode: Mode, socket: RecvSocket)
    requires AppendBroke(error, mode, socket)
    ensures FetchBroke(error, mode, socket) && error != RequestCompleted && error != NoDataToBeRetrieved
  {
  }

  lemma ChunkFetched(mode: Mode, before: seq<byte>, base: seq<byte>, mode': Mode, unread: seq<byte>, now: seq<byte>)
    requires ChunkReads(DecoderState(mode), before, base, DecoderState(mode'), unread, now)
    ensures After(DecoderState(mode), before) != Bad ==>
      After(DecoderState(mode'), unread) == After(DecoderState(mode), before)
      && Fetched(base, Out(DecoderState(mode), before), now, Out(DecoderState(mode'), unread))
    ensures |unread| <= |before| && (|unread| == |before| ==> unread == before)
  {
    if After(DecoderState(mode), before) != Bad {
      DoneFromHere(DecoderState(mode), before, base, DecoderState(mode'), unread, now);
      hide After, Out, Reads;
      AddedIsFetched(base, Out(DecoderState(mode), before), now, Out(DecoderState(mode'), unread));
    }
  }

  /** Without a byte to come the chunk reader stays where it is. */
  lemma ChunkDry(mode: Mode, base: seq<byte>, self: RecvBuffer, error: Option<Error>)
    requires mode.ChunkLength? && mode.next >= -1
    requires ChunkReads(DecoderState(mode), [], base, DecoderState(self.mode), self.serverSocket.unread,
      self.Contents())
    requires error.Some? ==> AppendBroke(error.value, self.mode, self.serverSocket)
    ensures self.Contents() == base && DecoderState(self.mode) == DecoderState(mode)
    ensures error.Some? ==> error == Some(SocketError)
  {
    var st := DecoderState(mode);
    assert After(st, []) == st && Out(st, []) == [];
    hide After, Out, DecoderState, ChunkReads;
    ReadsDry(st, base, DecoderState(self.mode), self.serverSocket.unread, self.Contents());
    if error.Some? {
      DryBroke(error.value, self);
    }
  }

  lemma ReadsDry(st: State, base: seq<byte>, st': State, unread: seq<byte>, now: seq<byte>)
    requires ChunkReads(st, [], base, st', unread, now) && st != Bad
    ensures st' == st && now == base && unread == []
  {
    var none: seq<byte> := [];
    assert After(st, none) == st && Out(st, none) == [];
    hide After, Out;
    assert |unread| == 0 && unread == none && none[..0] == none;
    assert Reads(st, none, st', unread, now[|base|..]);
    assert now == base + now[|base|..];
  }

  lemma DryBroke(error: Error, self: RecvBuffer)
    requires AppendBroke(error, self.mode, self.serverSocket) && self.serverSocket.unread == []
    requires DecoderState(self.mode) != Bad
    ensures error == SocketError
  {
    assert After(DecoderState(self.mode), []) != Bad;
  }

  lemma AddedIsFetched(base: seq<byte>, before: seq<byte>, now: seq<byte>, ahead: seq<byte>)
    requires base <= now && before == now[|base|..] + ahead
    ensures Fetched(base, before, now, ahead)
  {
    assert now == base + now[|base|..];
  }

  lemma WholeSize(payload: seq<byte>, len: nat, base: seq<byte>, now: seq<byte>, mode: Mode)
    requires WholeRead(payload, len, base, now, mode)
    ensures |now| == Min(|base| + len, |base + payload|)
  {
  }

  /** DataIncrement: counts what was added, and says whether the transmission is over for now. */
  method DataIncrement(self: RecvBuffer, added: nat) returns (finished: bool)
    requires self.buffer.Some? && !self.mode.ChunkLength? && self.mode != Complete
    modifies self`mode
    ensures finished <==> match old(self.mode)
      case KnownLength(escape, total) => escape + added >= total
      case TokenLength(token) => token != [] && !NoMatch(self.buffer.value, token)
      case UnknownLength(escape, limit) => escape + added >= limit
      case _ => false
    ensures self.mode == match old(self.mode)
      case KnownLength(escape, total) => if finished then Complete else KnownLength(escape + added, total)
      case TokenLength(token) => if finished then Complete else old(self.mode)
      case UnknownLength(escape, limit) => UnknownLength(escape + added, limit)
      case other => other
  {
    match self.mode
    case KnownLength(escape, total) =>
      finished := escape + added >= total;
      self.mode := if finished then Complete else KnownLength(escape + added, total);
    case TokenLength(token) =>
      var at := FindNeedle(self.buffer.value, token);
      finished := at >= 0;
      assert finished ==> MatchAt(self.buffer.value, token, at);
      if finished {
        self.mode := Complete;
      }
    case UnknownLength(escape, limit) =>
      finished := escape + added >= limit;
      self.mode := UnknownLength(escape + added, limit);
  }

  /** platformStringFindNeedleRaw */
  method FindNeedle(haystack: seq<byte>, needle: seq<byte>) returns (r: int)
    ensures if r < 0 then r == -1 && (needle == [] || NoMatch(haystack, needle))
            else needle != [] && FirstMatch(haystack, needle, r)
  {
    if |haystack| == 0 || |needle| == 0 || |haystack| < |needle| {
      return -1;
    }
    var i := 0;
    while i < |haystack| - |needle| + 1
      invariant 0 <= i <= |haystack| - |needle| + 1
      invariant forall k :: k < i ==> !MatchAt(haystack, needle, k)
    {
      if Upper(haystack[i]) == Upper(needle[0]) {
        var j := 0;
        while j < |needle| && Upper(haystack[i + j]) == Upper(needle[j])
          invariant j <= |needle| && forall k :: 0 <= k < j ==> Upper(haystack[i + k]) == Upper(needle[k])
        {
          j := j + 1;
        }
        if j == |needle| {
          return i;
        }
      }
      i := i + 1;
    }
    return -1;
  }

  /**
   recvBufferFind from the start of the buffer. The last byte is never tried as a start, so a token of one
   byte is not found there.
   */
  method Find(self: RecvBuffer, token: seq<byte>) returns (r: int)
    requires |token| >= 1 && (self.buffer.Some? ==> self.buffer.value != [])
    ensures if r >= 0 then
              r + 2 <= |self.Contents()| && r + |token| <= |self.Contents()| && FirstMatch(self.Contents(), token, r)
            else r == -1 && NoMatch(if |token| == 1 then AllButLast(self.Contents()) else self.Contents(), token)
  {
    if self.buffer.None? {
      return -1;
    }
    var p := self.buffer.value;
    var l := |p| - 1;
    var i := 0;
    while i < l
      invariant 0 <= i <= l
      invariant forall k :: k < i ==> !MatchAt(p, token, k)
    {
      if Upper(p[i]) == Upper(token[0]) {
        if i + |token| > |p| {
          return -1;
        }
        var k := 0;
        while k < |token| && Upper(p[i + k]) == Upper(token[k])
          invariant k <= |token| && forall n :: 0 <= n < k ==> Upper(p[i + n]) == Upper(token[n])
        {
          k := k + 1;
        }
        if k == |token| {
          return i;
        }
      }
      i := i + 1;
    }
    if |token| == 1 {
      forall k
        ensures !MatchAt(p[..l], token, k)
      {
        assert p[..l] == p[0..l];
        MatchInWindow(p, token, 0, l, k);
      }
    }
    return -1;
  }

  function AllButLast(s: seq<byte>): seq<byte> { if s == [] then [] else s[..|s| - 1] }

  /** recvBufferDitch; ditching everything, or more than there is, also frees the buffer. */
  method Ditch(self: RecvBuffer, len: nat)
    modifies self`buffer
    ensures self.Contents() == old(self.Contents())[Min(len, |old(self.Contents())|)..]
    ensures self.buffer == if len == 0 then old(self.buffer)
                           else if len < |old(self.Contents())| then Some(old(self.Contents())[len..]) else None
  {
    if len > 0 {
      if len < |self.Contents()| {
        self.buffer := Some(self.buffer.value[len..]);
      } else {
        self.buffer := None;
      }
    }
  }

  // ---- searching

  ghost predicate IsRest(stream: seq<byte>, start: nat, now: seq<byte>, ahead: seq<byte>) {
    start <= |stream| && now + ahead == stream[start..]
  }

  lemma WholeStream(now: seq<byte>, ahead: seq<byte>)
    ensures IsRest(now + ahead, 0, now, ahead)
  {
  }

  lemma RestBehind(stream: seq<byte>, start: nat, now: seq<byte>, ahead: seq<byte>, n: nat)
    requires IsRest(stream, start, now, ahead) && n <= |now|
    ensures IsRest(stream, start + n, now[n..], ahead)
  {
    assert now[n..] + ahead == (now + ahead)[n..];
    assert |now + ahead| == |stream| - start;
    assert stream[start..][n..] == stream[start + n..];
  }

  lemma RestFetched(stream: seq<byte>, start: nat, base: seq<byte>, before: seq<byte>, now: seq<byte>, ahead: seq<byte>)
    requires IsRest(stream, start, base, before) && Fetched(base, before, now, ahead)
    ensures IsRest(stream, start, now, ahead) && base <= now
  {
  }

  /** The stream from `start` on is what is buffered, then what is still ahead. */
  ghost predicate Conserved(stream: seq<byte>, start: nat, chunked: bool, self: RecvBuffer)
    reads self, self.serverSocket
  {
    IsRest(stream, start, self.Contents(), Rest(chunked, self))
  }

  /** How much of a stream has been fetched. */
  ghost function Seen(stream: seq<byte>, chunked: bool, self: RecvBuffer): int
    reads self, self.serverSocket
  {
    |stream| - |Rest(chunked, self)|
  }

  lemma ConservedWindow(stream: seq<byte>, start: nat, chunked: bool, self: RecvBuffer)
    requires Conserved(stream, start, chunked, self)
    ensures start <= Seen(stream, chunked, self) <= |stream|
    ensures self.Contents() == stream[start..Seen(stream, chunked, self)]
  {
    assert |self.Contents() + Rest(chunked, self)| == |stream| - start;
    assert stream[start..][..|self.Contents()|] == self.Contents();
  }

  /** The sliding window, for a buffer: what `Find` says of the buffer it says of the stream. */
  lemma Window(stream: seq<byte>, start: nat, chunked: bool, self: RecvBuffer, token: seq<byte>, seen: nat)
    requires Conserved(stream, start, chunked, self)
    requires start <= seen <= Seen(stream, chunked, self) && (start == 0 || |token| <= seen - start)
    requires seen <= |stream| && NoMatch(stream[..seen], token)
    ensures Seen(stream, chunked, self) <= |stream|
    ensures NoMatch(self.Contents(), token) ==> NoMatch(stream[..Seen(stream, chunked, self)], token)
    ensures forall m :: FirstMatch(self.Contents(), token, m) ==> FirstMatch(stream, token, start + m)
  {
    ConservedWindow(stream, start, chunked, self);
    WindowKeepsMatches(stream, token, start, seen, Seen(stream, chunked, self));
  }

  lemma DitchedMatch(s: seq<byte>, token: seq<byte>, o: nat)
    requires FirstMatch(s, token, o)
    ensures o <= |s| && FirstMatch(s[o..], token, 0)
  {
    assert s[o..] == s[o..|s|];
    MatchInWindow(s, token, o, |s|, 0);
  }

  lemma TooShort(s: seq<byte>, token: seq<byte>)
    requires |s| < |token|
    ensures NoMatch(s, token)
  {
  }

  lemma ShortHasNone(s: seq<byte>, token: seq<byte>)
    ensures |s| < |token| ==> NoMatch(s, token)
  {
  }

  // ---- when a search ends

  /** At or after its `i`-th answer the kernel shows all there is. */
  ghost predicate ShownFrom(socket: RecvSocket, i: nat) {
    exists k: nat :: i <= k && ShowsAll(socket.kernel(k))
  }

  /** Again and again the kernel shows all there is. */
  ghost predicate Lively(socket: RecvSocket) {
    forall i: nat :: ShownFrom(socket, i)
  }

  ghost function FirstShown(socket: RecvSocket, i: nat, k: nat): (r: nat)
    requires i <= k && ShowsAll(socket.kernel(k))
    ensures i <= r <= k && ShowsAll(socket.kernel(r))
    ensures forall j :: i <= j < r ==> !ShowsAll(socket.kernel(j))
    decreases k - i
  {
    if ShowsAll(socket.kernel(i)) then i else FirstShown(socket, i + 1, k)
  }

  /** How many answers a search has to wait for at most. */
  ghost function Patience(socket: RecvSocket, i: nat): nat {
    if ShownFrom(socket, i) then
      var k: nat :| i <= k && ShowsAll(socket.kernel(k));
      FirstShown(socket, i, k) - i
    else 0
  }

  lemma PatienceShrinks(socket: RecvSocket, i: nat)
    requires Lively(socket) && !ShowsAll(socket.kernel(i))
    ensures Patience(socket, i + 1) < Patience(socket, i)
  {
    assert ShownFrom(socket, i) && ShownFrom(socket, i + 1);
    var (p, q) := (i + Patience(socket, i), i + 1 + Patience(socket, i + 1));
    assert ShowsAll(socket.kernel(p)) && p != i;
    assert ShowsAll(socket.kernel(q));
  }

  ghost function Waiting(chunked: bool, socket: RecvSocket): nat
    reads socket
  {
    if chunked then Patience(socket, socket.calls) else 0
  }

  /** The reader is in its mode, and in the chunk mode the body is not bad and the kernel shows it in the end. */
  ghost predicate Searchable(chunked: bool, self: RecvBuffer)
    reads self, self.serverSocket
  {
    InMode(chunked, self.mode) && Fate(chunked, self) != Bad && (chunked ==> Lively(self.serverSocket))
  }

  /**
   What a search needs to come to an end. Outside the chunk mode nothing; a chunked body must be whole or
   have the token in the part that is there, for an append that finds nothing there is no error.
   */
  ghost predicate Findable(token: seq<byte>, self: RecvBuffer)
    reads self, self.serverSocket
  {
    var chunked := self.mode.ChunkLength?;
    Searchable(chunked, self)
    && (Fate(chunked, self) == Done || !NoMatch(self.Contents() + Rest(chunked, self), token))
  }

  /** What a search still needs when it has not found the token. */
  ghost predicate Ends(stream: seq<byte>, token: seq<byte>, chunked: bool, self: RecvBuffer)
    reads self, self.serverSocket
  {
    Fate(chunked, self) == Done || !NoMatch(stream, token)
  }

  /** A search of a stream has come to `start`. */
  ghost predicate Searching(stream: seq<byte>, start: nat, chunked: bool, self: RecvBuffer)
    reads self, self.serverSocket
  {
    Searchable(chunked, self) && Conserved(stream, start, chunked, self)
  }

  lemma SearchStarts(self: RecvBuffer) returns (chunked: bool, stream: seq<byte>)
    requires Searchable(self.mode.ChunkLength?, self)
    ensures chunked == self.mode.ChunkLength? && stream == self.Contents() + Rest(chunked, self)
    ensures Searching(stream, 0, chunked, self)
  {
    hide After, Out;
    chunked := self.mode.ChunkLength?;
    stream := self.Contents() + Rest(chunked, self);
    WholeStream(self.Contents(), Rest(chunked, self));
  }

  /** The kernel gives no reason to stop short, and the reader stops by itself only at the token. */
  ghost predicate Persistent(chunked: bool, token: seq<byte>, self: RecvBuffer)
    reads self, self.serverSocket
  {
    if chunked then Willing(self.serverSocket) && Fate(chunked, self) == Done
    else Steady(self.serverSocket) && Told(self.mode, token, self.Contents(), self.serverSocket.unread)
  }

  /** The same, but the reader may also stop short of a block, as it does in the unknown-length mode. */
  ghost predicate Lasting(chunked: bool, token: seq<byte>, self: RecvBuffer)
    reads self, self.serverSocket
  {
    Persistent(chunked, token, self) || (!chunked && Steady(self.serverSocket) && self.mode.UnknownLength?)
  }

  lemma PersistentLasts(chunked: bool, token: seq<byte>, self: RecvBuffer)
    ensures Persistent(chunked, token, self) ==> Lasting(chunked, token, self)
  {
  }

  /** One more fetch of a search. */
  method AppendMore(self: RecvBuffer, ghost token: seq<byte>, ghost stream: seq<byte>, ghost start: nat,
                    ghost chunked: bool)
    returns (error: Option<Error>)
    requires Searching(stream, start, chunked, self)
    modifies self`buffer, self`mode, self.serverSocket
    ensures Searching(stream, start, chunked, self) && old(self.Contents()) <= self.Contents()
    ensures |self.Contents()| <= |old(self.Contents())| + SB_DATA_SIZE
    ensures error == None ==> self.buffer.Some? && (!chunked ==> |self.Contents()| > |old(self.Contents())|)
    ensures Fate(chunked, self) == old(Fate(chunked, self))
    ensures error == None && old(StillAhead(chunked, self)) ==>
      || |self.serverSocket.unread| < |old(self.serverSocket.unread)|
      || (|self.serverSocket.unread| == |old(self.serverSocket.unread)|
          && Waiting(chunked, self.serverSocket) < old(Waiting(chunked, self.serverSocket)))
    ensures error.Some? ==> FetchBroke(error.value, self.mode, self.serverSocket)
    ensures error == Some(RequestCompleted) || error == Some(NoDataToBeRetrieved) ==>
      self.Contents() == old(self.Contents())
    ensures error == Some(RequestCompleted) && chunked ==> |self.Contents()| == |stream| - start
    ensures error == Some(RequestCompleted) <==> old(self.mode) == Complete
    ensures old(Covers(self.mode, self.serverSocket.unread)) ==> Covers(self.mode, self.serverSocket.unread)
    ensures old(Persistent(chunked, token, self)) ==> Persistent(chunked, token, self)
    ensures old(Lasting(chunked, token, self)) ==> Lasting(chunked, token, self)
    ensures old(Lasting(chunked, token, self)) && error.Some? ==>
      self.Contents() == old(self.Contents())
      && (|self.Contents()| == |stream| - start
          || (!chunked && old(self.mode) == Complete && !NoMatch(self.Contents(), token)))
    ensures error == None && old(self.mode) == TokenLength(token) && token != [] ==>
      self.mode == if NoMatch(self.Contents(), token) then old(self.mode) else Complete
    ensures old(Persistent(chunked, token, self)) && error == None
            && (chunked || NoMatch(self.Contents(), token) || Willing(self.serverSocket)) ==>
      |self.Contents()| == Min(|old(self.Contents())| + SB_DATA_SIZE, |stream| - start)
    ensures var l := old(FirstPiece(self.serverSocket, SB_DATA_SIZE));
      var first := old(self.Contents() + self.serverSocket.unread[..l]);
      l > 0 && old(self.mode) == TokenLength(token) && token != [] && !NoMatch(first, token) ==>
        error == None && self.mode == Complete && self.Contents() == first
  {
    hide After, Out, Fetched, NoMatch, Steady, FetchBroke, Armed, Covers, Lively, IsRest, Patience;
    ghost var (base, before, unread, calls, mode) :=
      (self.Contents(), Rest(chunked, self), self.serverSocket.unread, self.serverSocket.calls, self.mode);
    ghost var (eager, lasting, ahead) :=
      (Persistent(chunked, token, self), Lasting(chunked, token, self), StillAhead(chunked, self));
    RestSize(stream, start, base, before);
    error := Append(self, SB_DATA_SIZE);
    assert chunked && !mode.ChunkLength? ==> error == Some(RequestCompleted);
    RestFetched(stream, start, base, before, self.Contents(), Rest(chunked, self));
    if mode == TokenLength(token) {
      ArmedFacts(self.mode, token, self.Contents());
    }
    if error == None && chunked && self.serverSocket.unread == unread && ahead {
      PatienceShrinks(self.serverSocket, calls);
    }
    if error == Some(RequestCompleted) && chunked {
      NothingAhead(stream, start, self);
    }
    if lasting && !chunked {
      if eager {
        ToldFacts(mode, token, base, unread);
      }
      if error.Some? && error != Some(RequestCompleted) {
        SteadyBreaks(error.value, self);
        RestSize(stream, start, self.Contents(), self.serverSocket.unread);
      }
    }
  }

  /** As long as not all of the stream has been fetched there is something to fetch. */
  lemma RestIsAhead(stream: seq<byte>, start: nat, chunked: bool, self: RecvBuffer)
    requires Searching(stream, start, chunked, self)
    requires Fate(chunked, self) == Done || |self.Contents()| < |stream| - start
    ensures StillAhead(chunked, self)
  {
    RestSize(stream, start, self.Contents(), Rest(chunked, self));
  }

  lemma RestSize(stream: seq<byte>, start: nat, now: seq<byte>, ahead: seq<byte>)
    requires IsRest(stream, start, now, ahead)
    ensures |now + ahead| == |stream| - start && (ahead == [] ==> |now| == |stream| - start)
  {
  }

  lemma ArmedFacts(mode: Mode, token: seq<byte>, seen: seq<byte>)
    requires Armed(mode, token, seen)
    ensures mode == TokenLength(token) || (mode == Complete && !NoMatch(seen, token))
  {
  }

  lemma ToldFacts(mode: Mode, token: seq<byte>, seen: seq<byte>, unread: seq<byte>)
    requires Told(mode, token, seen, unread)
    ensures mode == TokenLength(token) || Covers(mode, unread) || (mode == Complete && !NoMatch(seen, token))
    ensures Covers(mode, unread) ==> !mode.TokenLength? && (mode == Complete ==> unread == [])
  {
  }

  lemma SteadyBreaks(error: Error, self: RecvBuffer)
    requires Steady(self.serverSocket) && FetchBroke(error, self.mode, self.serverSocket) && !self.mode.ChunkLength?
    requires error != RequestCompleted
    ensures error == NoDataToBeRetrieved && self.serverSocket.unread == []
  {
    if self.serverSocket.calls > 0 {
      SteadyAnswer(self.serverSocket, self.serverSocket.calls - 1);
    }
    DoneStays(self.serverSocket.unread);
  }

  /** Behind the last chunk's size line there is no payload. */
  lemma NothingAhead(stream: seq<byte>, start: nat, self: RecvBuffer)
    requires self.mode == Complete && Conserved(stream, start, true, self)
    ensures |self.Contents()| == |stream| - start
  {
    DoneStays(self.serverSocket.unread);
    assert self.Contents() + [] == self.Contents();
  }

  /** Ditching the front of the buffer brings a search on by as much. */
  method DitchFront(self: RecvBuffer, n: nat, ghost stream: seq<byte>, ghost start: nat, ghost chunked: bool)
    requires Searching(stream, start, chunked, self) && n < |self.Contents()|
    modifies self`buffer
    ensures Searching(stream, start + n, chunked, self) && Rest(chunked, self) == old(Rest(chunked, self))
    ensures Fate(chunked, self) == old(Fate(chunked, self))
    ensures self.buffer.Some? && self.Contents() == old(self.Contents())[n..]
  {
    hide After, Out, IsRest, Lively;
    RestBehind(stream, start, self.Contents(), Rest(chunked, self), n);
    Ditch(self, n);
  }

  /** Where the fetch begins that reaches `need` bytes, if every fetch before it brings a whole block. */
  function LastStart(have: nat, need: nat): (r: nat)
    ensures have <= r && (have < need ==> r < need <= r + SB_DATA_SIZE)
    decreases if have < need then need - have else 0
  {
    if have + SB_DATA_SIZE >= need then have else LastStart(have + SB_DATA_SIZE, need)
  }

  /** Fetching from `have` bytes on has come to `now` without passing over a start. */
  ghost predicate OnCourse(have: nat, need: nat, now: nat) {
    now < need ==> have <= now && LastStart(now, need) == LastStart(have, need)
  }

  /** A fetch that brings a whole block unless it finds the token stays on course. */
  lemma CourseStep(stream: seq<byte>, token: seq<byte>, m: nat, have: nat, base: seq<byte>, now: seq<byte>)
    requires FirstMatch(stream, token, m) && |base| < m + |token| && OnCourse(have, m + |token|, |base|)
    requires base <= now <= stream && |now| <= |base| + SB_DATA_SIZE
    requires NoMatch(now, token) ==> |now| == Min(|base| + SB_DATA_SIZE, |stream|)
    ensures OnCourse(have, m + |token|, |now|) && |now| > |base|
    ensures if |now| < m + |token| then |now| <= LastStart(have, m + |token|)
      else LastStart(have, m + |token|) == |base|
  {
    MatchInPrefix(stream, token, m, now);
    hide NoMatch, FirstMatch;
  }

  /** The first match is in a front part of the stream once that is long enough. */
  lemma MatchInPrefix(stream: seq<byte>, token: seq<byte>, m: nat, now: seq<byte>)
    requires FirstMatch(stream, token, m) && now <= stream
    ensures m + |token| <= |stream|
    ensures NoMatch(now, token) <==> |now| < m + |token|
  {
    assert now == stream[0..|now|];
    forall i
      ensures MatchAt(now, token, i) <==> i >= 0 && i + |token| <= |now| && MatchAt(stream, token, i)
    {
      MatchInWindow(stream, token, 0, |now|, i);
    }
    assert MatchAt(now, token, m) || |now| < m + |token|;
  }

  /** The kernel's next answer brings exactly the rest of the token, which starts the stream. */
  ghost predicate ShowsToken(self: RecvBuffer, token: seq<byte>)
    reads self, self.serverSocket
  {
    var l := FirstPiece(self.serverSocket, SB_DATA_SIZE);
    && self.mode == TokenLength(token) && token != []
    && l > 0 && |self.Contents()| + l == |token| && l <= |self.serverSocket.unread|
    && !NoMatch(self.Contents() + self.serverSocket.unread[..l], token)
  }

  /** What a buffer may hold between two fetches of a search: what it had, or a block more than the token. */
  function Room(have: nat, token: nat): (r: nat)
    ensures r >= token + SB_DATA_SIZE && r >= have
  {
    if have > token + SB_DATA_SIZE then have else token + SB_DATA_SIZE
  }

  /** Fetches until the buffer holds as much as the token has, the way both searches start. */
  method FetchAtLeast(self: RecvBuffer, token: seq<byte>, ghost stream: seq<byte>, ghost chunked: bool, ghost m: int)
    returns (error: Option<Error>)
    requires Searching(stream, 0, chunked, self) && |token| > 0
    requires Fate(chunked, self) == Done || |stream| >= |token|
    requires m >= 0 ==> FirstMatch(stream, token, m)
    modifies self`buffer, self`mode, self.serverSocket
    ensures Searching(stream, 0, chunked, self) && old(self.Contents()) <= self.Contents()
    ensures |self.Contents()| <= Room(|old(self.Contents())|, |token|)
    ensures error == None ==> self.buffer.Some? && |self.Contents()| >= |token|
    ensures Fate(chunked, self) == old(Fate(chunked, self))
    ensures error.Some? ==> FetchBroke(error.value, self.mode, self.serverSocket)
    ensures error == Some(RequestCompleted) || error == Some(NoDataToBeRetrieved) ==> |self.Contents()| < |token|
    ensures error == Some(RequestCompleted) && chunked ==> |self.Contents()| == |stream|
    ensures old(Covers(self.mode, self.serverSocket.unread)) ==> Covers(self.mode, self.serverSocket.unread)
    ensures old(Persistent(chunked, token, self)) ==> Persistent(chunked, token, self)
    ensures old(Lasting(chunked, token, self)) ==> Lasting(chunked, token, self)
    ensures old(Lasting(chunked, token, self)) && error.Some? ==>
      |self.Contents()| == |stream| && |self.Contents()| < |token|
    ensures m == 0 && old(Persistent(chunked, token, self)) && |old(self.Contents())| < |token| ==>
      Arriving(|old(self.Contents())|, |stream|, token, old(self.mode), self)
    ensures m >= 0 && old(Persistent(chunked, token, self)) ==>
      && error == None && OnCourse(|old(self.Contents())|, m + |token|, |self.Contents()|)
      && (|old(self.Contents())| < m + |token| <= |self.Contents()| ==>
            LastStart(|old(self.Contents())|, m + |token|) <= |token|)
    ensures |old(self.Contents())| >= |token| && old(self.buffer.Some?) ==>
      error == None && self.Contents() == old(self.Contents()) && self.mode == old(self.mode)
      && self.serverSocket.unread == old(self.serverSocket.unread)
    ensures old(ShowsToken(self, token)) ==> error == None && self.mode == Complete && |self.Contents()| == |token|
  {
    hide FetchBroke, Searching, Waiting, Persistent, Lasting, StillAhead, Fate, NoMatch, FirstMatch, OnCourse,
      FirstPiece, Arriving, LastStart, Covers, ShowsToken, After, Out, Rest, Room;
    ghost var (have, need, eager, shows, mode) :=
      (self.Contents(), m + |token|, Persistent(chunked, token, self), ShowsToken(self, token), self.mode);
    ghost var (lasting, fate, covers) :=
      (Lasting(chunked, token, self), Fate(chunked, self), Covers(self.mode, self.serverSocket.unread));
    ghost var (filled, unread) := (self.buffer.Some? && |have| >= |token|, self.serverSocket.unread);
    PersistentLasts(chunked, token, self);
    NotYet(|have|, |stream|, token, self);
    CourseBegins(|have|, need);
    if self.buffer.None? {
      error := AppendFirst(self, token, stream, chunked, if eager then m else -1, |have|, mode);
      if error.Some? {
        ShortHasNone(self.Contents(), token);
        return;
      }
    }
    while |self.Contents()| < |token|
      invariant self.buffer.Some? && Searching(stream, 0, chunked, self) && have <= self.Contents()
      invariant |self.Contents()| <= Room(|have|, |token|)
      invariant eager ==> Persistent(chunked, token, self)
      invariant lasting ==> Lasting(chunked, token, self)
      invariant Fate(chunked, self) == fate
      invariant covers ==> Covers(self.mode, self.serverSocket.unread)
      invariant m >= 0 && eager ==> OnCourse(|have|, need, |self.Contents()|)
                                    && (|have| < need <= |self.Contents()| ==> LastStart(|have|, need) <= |token|)
      invariant filled ==> self.Contents() == have && self.mode == mode && self.serverSocket.unread == unread
      invariant shows ==> ShowsToken(self, token) || (self.mode == Complete && |self.Contents()| == |token|)
      invariant m == 0 && eager && |have| < |token| ==> Arriving(|have|, |stream|, token, mode, self)
      decreases |self.serverSocket.unread|, Waiting(chunked, self.serverSocket)
    {
      RestIsAhead(stream, 0, chunked, self);
      error := AppendFirst(self, token, stream, chunked, if eager then m else -1, |have|, mode);
      if error.Some? {
        ShortHasNone(self.Contents(), token);
        return;
      }
    }
    NotYet(|have|, |stream|, token, self);
    error := None;
  }

  /** Fetching a token that starts the stream: the fetch that brings it in ends the transmission. */
  ghost predicate Arriving(have: nat, size: nat, token: seq<byte>, mode: Mode, self: RecvBuffer)
    reads self
  {
    if |self.Contents()| < |token| then mode == TokenLength(token) ==> self.mode == mode
    else
      && (mode == TokenLength(token) ==> self.mode == Complete)
      && (Willing(self.serverSocket) ==> |self.Contents()| == StartSize(have, |token|, size))
  }

  lemma NotYet(have: nat, size: nat, token: seq<byte>, self: RecvBuffer)
    ensures |self.Contents()| < |token| ==> Arriving(have, size, token, self.mode, self)
    ensures ShowsToken(self, token) ==> |self.Contents()| < |token|
  {
  }

  lemma CourseBegins(have: nat, need: int)
    ensures need >= 0 ==> OnCourse(have, need, have)
  {
  }

  /** One of the fetches before the search proper, from a buffer that is no longer than the token. */
  method AppendFirst(self: RecvBuffer, ghost token: seq<byte>, ghost stream: seq<byte>, ghost chunked: bool,
                     ghost m: int, ghost have: nat, ghost mode: Mode)
    returns (error: Option<Error>)
    requires Searching(stream, 0, chunked, self) && |self.Contents()| <= |token|
    requires m >= 0 ==> FirstMatch(stream, token, m)
    requires m >= 0 && Persistent(chunked, token, self) ==> OnCourse(have, m + |token|, |self.Contents()|)
    modifies self`buffer, self`mode, self.serverSocket
    ensures Searching(stream, 0, chunked, self) && old(self.Contents()) <= self.Contents()
    ensures |self.Contents()| <= |token| + SB_DATA_SIZE
    ensures error == None ==> self.buffer.Some? && (!chunked ==> |self.Contents()| > |old(self.Contents())|)
    ensures Fate(chunked, self) == old(Fate(chunked, self))
    ensures error == None && old(StillAhead(chunked, self)) ==>
      || |self.serverSocket.unread| < |old(self.serverSocket.unread)|
      || (|self.serverSocket.unread| == |old(self.serverSocket.unread)|
          && Waiting(chunked, self.serverSocket) < old(Waiting(chunked, self.serverSocket)))
    ensures error.Some? ==> FetchBroke(error.value, self.mode, self.serverSocket)
    ensures error == Some(RequestCompleted) || error == Some(NoDataToBeRetrieved) ==>
      self.Contents() == old(self.Contents())
    ensures error == Some(RequestCompleted) && chunked ==> |self.Contents()| == |stream|
    ensures error == Some(RequestCompleted) <==> old(self.mode) == Complete
    ensures old(Covers(self.mode, self.serverSocket.unread)) ==> Covers(self.mode, self.serverSocket.unread)
    ensures old(Persistent(chunked, token, self)) ==> Persistent(chunked, token, self)
    ensures m >= 0 && old(Persistent(chunked, token, self)) && |old(self.Contents())| < m + |token| ==>
      && error == None && OnCourse(have, m + |token|, |self.Contents()|) && |self.Contents()| > |old(self.Contents())|
      && (|self.Contents()| >= m + |token| ==> LastStart(have, m + |token|) <= |token|)
    ensures old(Lasting(chunked, token, self)) ==> Lasting(chunked, token, self)
    ensures old(Lasting(chunked, token, self)) && error.Some? ==>
      self.Contents() == old(self.Contents())
      && (|self.Contents()| == |stream|
          || (!chunked && old(self.mode) == Complete && !NoMatch(self.Contents(), token)))
    ensures m == 0 && old(Persistent(chunked, token, self)) && |old(self.Contents())| < |token|
            && old(Arriving(have, |stream|, token, mode, self)) ==>
      Arriving(have, |stream|, token, mode, self)
    ensures old(ShowsToken(self, token)) ==> error == None && self.mode == Complete && |self.Contents()| == |token|
  {
    hide FetchBroke, Searching, Waiting, Persistent, Lasting, StillAhead, Fate, NoMatch, FirstMatch, OnCourse;
    PersistentLasts(chunked, token, self);
    ghost var (base, eager) := (self.Contents(), Persistent(chunked, token, self));
    InStream(stream, chunked, self);
    error := AppendMore(self, token, stream, 0, chunked);
    InStream(stream, chunked, self);
    if m >= 0 && eager && |base| < m + |token| {
      MatchInPrefix(stream, token, m, base);
      if error == None {
        EagerSize(chunked, token, self);
        CourseStep(stream, token, m, have, base, self.Contents());
        MatchInPrefix(stream, token, m, self.Contents());
      }
    }
  }

  lemma EagerSize(chunked: bool, token: seq<byte>, self: RecvBuffer)
    requires Persistent(chunked, token, self)
    ensures chunked ==> Willing(self.serverSocket)
  {
  }

  lemma InStream(stream: seq<byte>, chunked: bool, self: RecvBuffer)
    requires Searching(stream, 0, chunked, self)
    ensures self.Contents() <= stream
  {
    assert stream[0..] == stream;
  }

  /**
   The reader stops by itself only at the token or at the end of what is there: it decodes a chunked body
   that is whole, or is told the token, or is told a length that covers all that is on the socket.
   */
  ghost predicate Driven(token: seq<byte>, self: RecvBuffer)
    reads self, self.serverSocket
  {
    if self.mode.ChunkLength? then Fate(true, self) == Done
    else self.mode == TokenLength(token) || Covers(self.mode, self.serverSocket.unread)
  }

  lemma DrivenPersists(chunked: bool, token: seq<byte>, self: RecvBuffer)
    requires chunked == self.mode.ChunkLength?
    ensures Willing(self.serverSocket) ==> Steady(self.serverSocket)
    ensures Driven(token, self) && (if chunked then Willing(self.serverSocket) else Steady(self.serverSocket)) ==>
      Persistent(chunked, token, self)
    ensures !chunked && Driven(token, self) ==>
      self.mode == TokenLength(token) || Covers(self.mode, self.serverSocket.unread)
  {
    hide After;
  }

  lemma DrivenLasts(chunked: bool, token: seq<byte>, self: RecvBuffer)
    requires chunked == self.mode.ChunkLength?
    requires Driven(token, self) || self.mode.UnknownLength?
    requires if chunked then Willing(self.serverSocket) else Steady(self.serverSocket)
    ensures Lasting(chunked, token, self)
  {
    DrivenPersists(chunked, token, self);
    hide Persistent, Driven, Steady;
  }

  /**
   recvBufferFindAndDitch, in every mode: the stream is what is buffered and what the reader will deliver.
   When it succeeds the first match of the whole stream is at offset 0 of the buffer, or 1, because one byte
   in front of it is not worth ditching. When it runs out of bytes the token is in none of those that have
   arrived, and of a chunked body that is all of them. A reader that does not stop early finds the token if
   and only if it is in the stream.
   */
  method FindAndDitch(self: RecvBuffer, token: seq<byte>) returns (error: Option<Error>, ditched: nat)
    requires |token| >= 2 && Findable(token, self)
    modifies self`buffer, self`mode, self.serverSocket
    ensures var (chunked, stream) :=
      (old(self.mode.ChunkLength?), old(self.Contents() + Rest(self.mode.ChunkLength?, self)));
      && Searching(stream, ditched, chunked, self)
      && |self.Contents()| <= Room(|old(self.Contents())|, |token|) + SB_DATA_SIZE
      && (error == None ==> exists o :: 0 <= o <= 1 && FirstMatch(self.Contents(), token, o)
                                        && FirstMatch(stream, token, ditched + o))
      && (error == None && FirstMatch(stream, token, 1) ==> ditched == 0)
      && (error.Some? ==> FetchBroke(error.value, self.mode, self.serverSocket))
      && (error == Some(RequestCompleted) || error == Some(NoDataToBeRetrieved) ==>
          NothingSeen(stream, chunked, self, token))
      && (error == Some(RequestCompleted) && chunked ==> NoMatch(stream, token))
      && (old(Driven(token, self) || self.mode.UnknownLength?)
          && (if chunked then Willing(self.serverSocket) else Steady(self.serverSocket)) ==>
            (error == None <==> !NoMatch(stream, token)))
  {
    hide FirstMatch, NoMatch, MatchAt, FetchBroke, IsRest, Searchable, Waiting, Rest, Lasting, Persistent, Driven,
      Steady, Fate, Ends, Findable, Room, Willing, After, Out;
    ghost var chunked, stream := FindableStarts(token, self);
    ghost var (room, eager) := (Room(|self.Contents()|, |token|), Lasting(chunked, token, self));
    error := FetchAtLeast(self, token, stream, chunked, -1);
    SameFateEnds(stream, token, chunked, self);
    ditched := 0;
    if error.Some? {
      ConservedWindow(stream, 0, chunked, self);
      if |self.Contents()| < |token| {
        TooShort(self.Contents(), token);
        FoundSoFar(stream, 0, chunked, self, token, -1);
      }
      assert stream[..|stream|] == stream;
      return;
    }
    var o := -1;
    while o == -1
      invariant error == None && Searching(stream, ditched, chunked, self)
      invariant Ends(stream, token, chunked, self)
      invariant eager ==> Lasting(chunked, token, self) || o >= 0
      invariant self.buffer.Some? && |self.Contents()| >= |token|
      invariant |self.Contents()| <= room + if o == -1 then 0 else SB_DATA_SIZE
      invariant o >= -1 && (o == 0 ==> ditched == 0)
      invariant if o >= 0 then
                  o < |self.Contents()| && FirstMatch(self.Contents(), token, o)
                  && FirstMatch(stream, token, ditched + o)
                else ditched > 0 ==> NothingSeen(stream, chunked, self, token)
      decreases |self.serverSocket.unread|, Waiting(chunked, self.serverSocket), if o == -1 then 1 else 0
    {
      o := Find(self, token);
      FoundSoFar(stream, ditched, chunked, self, token, o);
      if o == -1 {
        error, o, ditched := FetchAndDitch(self, token, stream, ditched, chunked);
        if error.Some? {
          return;
        }
      }
    }
    MatchIsOne(stream, token, ditched + o);
    if o > 1 {
      DitchedMatch(self.Contents(), token, o);
      DitchFront(self, o, stream, ditched, chunked);
      ditched := ditched + o;
    }
  }

  lemma FindableStarts(token: seq<byte>, self: RecvBuffer) returns (chunked: bool, stream: seq<byte>)
    requires Findable(token, self)
    ensures chunked == self.mode.ChunkLength? && stream == self.Contents() + Rest(chunked, self)
    ensures Searching(stream, 0, chunked, self)
    ensures Fate(chunked, self) == Done || (!NoMatch(stream, token) && |stream| >= |token|)
    ensures (Driven(token, self) || self.mode.UnknownLength?)
            && (if chunked then Willing(self.serverSocket) else Steady(self.serverSocket)) ==>
      Lasting(chunked, token, self)
  {
    hide NoMatch, After, Out, Driven, Steady, Lasting, Searching, Searchable;
    chunked, stream := SearchStarts(self);
    ShortHasNone(stream, token);
    if (Driven(token, self) || self.mode.UnknownLength?)
       && if chunked then Willing(self.serverSocket) else Steady(self.serverSocket) {
      DrivenLasts(chunked, token, self);
    }
  }

  lemma SameFateEnds(stream: seq<byte>, token: seq<byte>, chunked: bool, self: RecvBuffer)
    ensures Ends(stream, token, chunked, self) <==> Fate(chunked, self) == Done || !NoMatch(stream, token)
  {
  }

  lemma MatchIsOne(s: seq<byte>, token: seq<byte>, m: int)
    requires FirstMatch(s, token, m)
    ensures !NoMatch(s, token)
    ensures forall n :: FirstMatch(s, token, n) ==> n == m
  {
  }

  lemma NotBoth(s: seq<byte>, token: seq<byte>, m: int)
    ensures !(FirstMatch(s, token, m) && NoMatch(s, token))
  {
  }

  /** What is found after a fetch is not at the front, where it would have been seen before. */
  lemma NotAtFront(stream: seq<byte>, token: seq<byte>, start: nat, seen: nat, o: int)
    requires start + |token| <= seen <= |stream| && NoMatch(stream[..seen], token)
    requires o >= 0 ==> FirstMatch(stream, token, start + o)
    ensures o != 0
  {
    assert stream[..seen] == stream[0..seen];
    MatchInWindow(stream, token, 0, seen, start);
  }

  /** The token is in none of the bytes that have arrived. */
  ghost predicate NothingSeen(stream: seq<byte>, chunked: bool, self: RecvBuffer, token: seq<byte>)
    reads self, self.serverSocket
  {
    0 <= Seen(stream, chunked, self) <= |stream| && NoMatch(stream[..Seen(stream, chunked, self)], token)
  }

  lemma FoundSoFar(stream: seq<byte>, start: nat, chunked: bool, self: RecvBuffer, token: seq<byte>, found: int)
    requires |token| > 0 && Conserved(stream, start, chunked, self)
    requires start > 0 ==> NothingSeen(stream, chunked, self, token) && |self.Contents()| >= |token|
    requires if found >= 0 then FirstMatch(self.Contents(), token, found) else NoMatch(self.Contents(), token)
    ensures if found >= 0 then FirstMatch(stream, token, start + found) else NothingSeen(stream, chunked, self, token)
    ensures start > 0 ==> found < 0
  {
    if start > 0 {
      NoneInBuffer(stream, start, chunked, self, token);
      NotBoth(self.Contents(), token, found);
    }
    hide FirstMatch, NoMatch, IsRest;
    ConservedWindow(stream, start, chunked, self);
    assert stream[..0] == [];
    TooShort([], token);
    Window(stream, start, chunked, self, token, if start > 0 then Seen(stream, chunked, self) else 0);
  }

  /** The rest of a round: one fetch, and if the token is still not there all but its length is ditched. */
  method FetchAndDitch(self: RecvBuffer, token: seq<byte>, ghost stream: seq<byte>, start: nat, ghost chunked: bool)
    returns (error: Option<Error>, o: int, ditched: nat)
    requires |token| >= 2 && Searching(stream, start, chunked, self)
    requires |self.Contents()| >= |token| && NothingSeen(stream, chunked, self, token)
    requires Ends(stream, token, chunked, self)
    modifies self`buffer, self`mode, self.serverSocket
    ensures Searching(stream, ditched, chunked, self) && Ends(stream, token, chunked, self)
    ensures |self.Contents()| <= |old(self.Contents())| + SB_DATA_SIZE
    ensures error == None && o < 0 ==> |self.Contents()| == |token|
    ensures error.Some? ==> ditched == start && old(self.Contents()) <= self.Contents()
    ensures error.Some? ==> FetchBroke(error.value, self.mode, self.serverSocket)
    ensures error == Some(RequestCompleted) || error == Some(NoDataToBeRetrieved) ==>
      NothingSeen(stream, chunked, self, token)
    ensures error == Some(RequestCompleted) && chunked ==> NoMatch(stream, token)
    ensures old(Lasting(chunked, token, self)) ==>
      if error.Some? then NoMatch(stream, token) else Lasting(chunked, token, self) || o >= 0
    ensures error == None ==>
      && self.buffer.Some? && |self.Contents()| >= |token| && o >= -1 && o != 0
      && (if o >= 0 then
            o < |self.Contents()| && FirstMatch(self.Contents(), token, o) && FirstMatch(stream, token, ditched + o)
          else NothingSeen(stream, chunked, self, token))
      && (|self.serverSocket.unread| < |old(self.serverSocket.unread)|
          || (|self.serverSocket.unread| == |old(self.serverSocket.unread)|
              && Waiting(chunked, self.serverSocket) < old(Waiting(chunked, self.serverSocket))))
  {
    hide FirstMatch, NoMatch, MatchAt, FetchBroke, IsRest, Searchable, Waiting, Rest, Lasting, StillAhead, Fate, Ends;
    o, ditched := -1, start;
    ConservedWindow(stream, start, chunked, self);
    ghost var seen: nat := Seen(stream, chunked, self);
    NoneInBuffer(stream, start, chunked, self, token);
    NotSeenIsAhead(stream, start, token, chunked, self);
    SameFateEnds(stream, token, chunked, self);
    error := AppendMore(self, token, stream, start, chunked);
    ConservedWindow(stream, start, chunked, self);
    SameFateEnds(stream, token, chunked, self);
    if error.Some? {
      assert stream[..|stream|] == stream;
      return;
    }
    Window(stream, start, chunked, self, token, seen);
    o := Find(self, token);
    NotAtFront(stream, token, start, seen, o);
    if o == -1 && |self.Contents()| > |token| {
      var ditch := |self.Contents()| - |token|;
      ghost var (mode, unread, now) := (self.mode, self.serverSocket.unread, self.Contents());
      LastsWhen(chunked, token, self);
      DitchFront(self, ditch, stream, start, chunked);
      ditched := start + ditch;
      StillLasts(chunked, token, mode, unread, now, self);
      SameFateEnds(stream, token, chunked, self);
    }
  }

  lemma NoneInBuffer(stream: seq<byte>, start: nat, chunked: bool, self: RecvBuffer, token: seq<byte>)
    requires Conserved(stream, start, chunked, self) && NothingSeen(stream, chunked, self, token)
    ensures NoMatch(self.Contents(), token)
  {
    ConservedWindow(stream, start, chunked, self);
    var seen := Seen(stream, chunked, self);
    assert stream[..seen] == stream[0..seen];
    forall i
      ensures !MatchAt(self.Contents(), token, i)
    {
      MatchInWindow(stream, token, start, seen, i);
      MatchInWindow(stream, token, 0, seen, start + i);
    }
  }

  /** As long as the token has not been seen a search has something to fetch. */
  lemma NotSeenIsAhead(stream: seq<byte>, start: nat, token: seq<byte>, chunked: bool, self: RecvBuffer)
    requires Searching(stream, start, chunked, self) && Ends(stream, token, chunked, self)
    requires NothingSeen(stream, chunked, self, token)
    ensures StillAhead(chunked, self)
  {
    hide NoMatch, After, Out;
    if Rest(chunked, self) == [] {
      assert stream[..|stream|] == stream;
    }
  }

  lemma LastsWhen(chunked: bool, token: seq<byte>, self: RecvBuffer)
    ensures Lasting(chunked, token, self) <==>
            if chunked then Willing(self.serverSocket) && Fate(chunked, self) == Done
            else Steady(self.serverSocket)
                 && (Told(self.mode, token, self.Contents(), self.serverSocket.unread) || self.mode.UnknownLength?)
  {
    hide After, Out, Told;
  }

  /** Ditching bytes in which the token is not does not change what the reader waits for. */
  lemma StillLasts(chunked: bool, token: seq<byte>, mode: Mode, unread: seq<byte>, now: seq<byte>, self: RecvBuffer)
    requires NoMatch(now, token) && self.mode == mode && self.serverSocket.unread == unread
    ensures (if chunked then Willing(self.serverSocket) && Fate(chunked, self) == Done
             else Steady(self.serverSocket) && (Told(mode, token, now, unread) || mode.UnknownLength?))
            ==> Lasting(chunked, token, self)
  {
    LastsWhen(chunked, token, self);
    hide After, Out, Lasting, Covers, Steady, NoMatch;
  }

  /** The offset of the first match from `i` on, or -1. */
  function FirstFrom(s: seq<byte>, token: seq<byte>, i: nat): (r: int)
    ensures r >= 0 ==> i <= r && MatchAt(s, token, r)
    ensures r < 0 ==> r == -1 && forall k :: i <= k ==> !MatchAt(s, token, k)
    ensures forall k :: i <= k < r ==> !MatchAt(s, token, k)
    decreases |s| - i
  {
    if i + |token| > |s| then -1 else if MatchAt(s, token, i) then i else FirstFrom(s, token, i + 1)
  }

  lemma FirstOrNone(s: seq<byte>, token: seq<byte>)
    ensures var m := FirstFrom(s, token, 0); if m >= 0 then FirstMatch(s, token, m) else NoMatch(s, token)
  {
  }

  /**
   Whether the search for a token that ends at `need` can be cut off by its limit. It cannot if the token is
   in the buffer already, or if the fetch that brings it begins while the buffer is no longer than the token,
   for such a fetch is not checked; and otherwise only if that fetch may take the buffer past the limit.
   */
  predicate Reach(have: nat, size: nat, need: nat, token: nat, max: nat) {
    need <= have || LastStart(have, need) <= token || Min(LastStart(have, need) + SB_DATA_SIZE, size) <= max
  }

  /** With `k` fetches of a whole block in front of the one that reaches the end of the token. */
  lemma {:induction false} ReachAfter(have: nat, size: nat, need: nat, token: nat, max: nat, k: nat)
    requires have + k * SB_DATA_SIZE < need <= have + k * SB_DATA_SIZE + SB_DATA_SIZE
    ensures Reach(have, size, need, token, max) <==>
      have + k * SB_DATA_SIZE <= token || Min(have + k * SB_DATA_SIZE + SB_DATA_SIZE, size) <= max
    decreases k
  {
    if k > 0 {
      var next := have + SB_DATA_SIZE;
      assert have + k * SB_DATA_SIZE == next + (k - 1) * SB_DATA_SIZE;
      assert (k - 1) * SB_DATA_SIZE >= 0;
      ReachAfter(next, size, need, token, max, k - 1);
    }
  }

  /** The first fetch into an empty buffer is not checked: within one block every token is within reach. */
  lemma FirstBlockReaches(size: nat, need: nat, token: nat, max: nat)
    requires need <= SB_DATA_SIZE
    ensures Reach(0, size, need, token, max)
  {
    assert LastStart(0, need) == 0;
  }

  /** Why a search for a token to fetch ends without it. */
  ghost predicate SearchBroke(error: Error, self: RecvBuffer, token: seq<byte>, max: nat)
    reads self, self.serverSocket
  {
    match error
    case TokenBiggerThenBufferLimits => max < |token|
    case ExceededMaximumAllowedBufferSize => max < |self.Contents()|
    case _ => FetchBroke(error, self.mode, self.serverSocket)
  }

  /** The reader is told to stop at the token, and has not yet fetched as much as that has. */
  predicate TokenAtStart(token: seq<byte>, self: RecvBuffer)
    reads self
  {
    self.mode == TokenLength(token) && |self.Contents()| < |token|
  }

  /** How much is in the buffer when it first holds as much as the token, if the kernel shows all there is. */
  function StartSize(have: nat, token: nat, size: nat): nat { Min(LastStart(have, token) + SB_DATA_SIZE, size) }

  lemma CompleteMeans(stream: seq<byte>, chunked: bool, self: RecvBuffer)
    requires Searching(stream, 0, chunked, self)
    ensures !chunked && Covers(self.mode, self.serverSocket.unread) && self.mode == Complete ==>
      |self.Contents()| == |stream|
  {
    if !chunked {
      FetchedRaw(stream, self);
    }
  }

  /** The fetches in front of the search proper, which bring in more than the token has, or fail. */
  method FetchFirst(self: RecvBuffer, token: seq<byte>, ghost stream: seq<byte>, ghost chunked: bool, ghost m: int)
    returns (error: Option<Error>)
    requires Searching(stream, 0, chunked, self) && |token| > 0
    requires Fate(chunked, self) == Done || |stream| >= |token|
    requires m >= 0 ==> FirstMatch(stream, token, m)
    modifies self`buffer, self`mode, self.serverSocket
    ensures Searching(stream, 0, chunked, self) && old(self.Contents()) <= self.Contents()
    ensures error == None ==>
      self.buffer.Some? && |self.Contents()| >= |token| && (!chunked ==> |self.Contents()| > |token|)
    ensures error.Some? ==> FetchBroke(error.value, self.mode, self.serverSocket)
    ensures Fate(chunked, self) == old(Fate(chunked, self))
    ensures old(Persistent(chunked, token, self)) ==> Persistent(chunked, token, self)
    ensures m > 0 && old(Persistent(chunked, token, self)) ==>
      && error == None && |self.Contents()| > |token|
          && OnCourse(|old(self.Contents())|, m + |token|, |self.Contents()|)
      && (|old(self.Contents())| < m + |token| <= |self.Contents()| ==>
            LastStart(|old(self.Contents())|, m + |token|) <= |token|)
    ensures m == 0 && old(Persistent(chunked, token, self)) && error.Some? ==>
      |self.Contents()| <= |token|
      && (|self.Contents()| == |stream| || old(TokenAtStart(token, self))
          || (!chunked && old(self.mode != TokenLength(token) && !Covers(self.mode, self.serverSocket.unread))))
    ensures m == 0 && old(Persistent(chunked, token, self)) && old(TokenAtStart(token, self))
            && Willing(self.serverSocket) ==>
      (error == None <==> StartSize(|old(self.Contents())|, |token|, |stream|) > |token|)
    ensures old(ShowsToken(self, token)) ==> error == Some(RequestCompleted)
  {
    hide Fate, StillAhead, Lasting;
    PersistentLasts(chunked, token, self);
    hide FirstMatch, MatchAt, FetchBroke, Searching, Persistent, Waiting, NoMatch, OnCourse, LastStart, FirstPiece,
      Covers;
    ghost var (eager, have, mode) := (Persistent(chunked, token, self), |self.Contents()|, self.mode);
    error := FetchAtLeast(self, token, stream, chunked, m);
    ghost var now := self.Contents();
    if error == None && |self.Contents()| <= |token| {
      CompleteMeans(stream, chunked, self);
      error := AppendFirst(self, token, stream, chunked, if eager then m else -1, have, self.mode);
    }
  }

  /** One round of the search proper. */
  method SearchMore(self: RecvBuffer, token: seq<byte>, max: nat, ghost stream: seq<byte>, ghost chunked: bool,
                    ghost m: int,
                    ghost have: nat)
    returns (error: Option<Error>)
    requires |token| >= 2 && Searching(stream, 0, chunked, self)
    requires NoMatch(self.Contents(), token) && Ends(stream, token, chunked, self)
    requires m >= 0 ==> FirstMatch(stream, token, m)
    requires m >= 0 && Persistent(chunked, token, self) ==>
      OnCourse(have, m + |token|, |self.Contents()|) && |self.Contents()| > |token|
    modifies self`buffer, self`mode, self.serverSocket
    ensures Searching(stream, 0, chunked, self) && old(self.Contents()) <= self.Contents()
    ensures error == None ==> self.buffer.Some?
    ensures Ends(stream, token, chunked, self)
    ensures error == None ==>
      || |self.serverSocket.unread| < |old(self.serverSocket.unread)|
      || (|self.serverSocket.unread| == |old(self.serverSocket.unread)|
          && Waiting(chunked, self.serverSocket) < old(Waiting(chunked, self.serverSocket)))
    ensures error.Some? ==> SearchBroke(error.value, self, token, max)
    ensures old(Persistent(chunked, token, self)) ==> Persistent(chunked, token, self)
    ensures m >= 0 && old(Persistent(chunked, token, self)) ==>
      if error.Some? then have < m + |token| && !Reach(have, |stream|, m + |token|, |token|, max)
      else
        && OnCourse(have, m + |token|, |self.Contents()|)
        && (|self.Contents()| >= m + |token| && Willing(self.serverSocket) && have <= |old(self.Contents())| ==>
              Reach(have, |stream|, m + |token|, |token|, max))
  {
    hide Fate, StillAhead, Lasting, Ends;
    PersistentLasts(chunked, token, self);
    NoneIsAhead(stream, token, chunked, self);
    SameFateEnds(stream, token, chunked, self);
    hide FetchBroke, Searching, Waiting, Persistent, NoMatch, FirstMatch, OnCourse, LastStart, MatchAt, After, Out,
      Rest, Willing;
    ghost var (base, eager) := (self.Contents(), Persistent(chunked, token, self));
    InStream(stream, chunked, self);
    error := AppendMore(self, token, stream, 0, chunked);
    SameFateEnds(stream, token, chunked, self);
    InStream(stream, chunked, self);
    if m >= 0 && eager {
      MatchInPrefix(stream, token, m, base);
      CourseHead(have, m + |token|, |base|);
      if error == None {
        EagerSize(chunked, token, self);
        CourseStep(stream, token, m, have, base, self.Contents());
      }
    }
    if error == None && |self.Contents()| > max {
      error := Some(ExceededMaximumAllowedBufferSize);
    } else if error.Some? {
      BreaksSearch(error.value, self, token, max);
    }
  }

  lemma NoneIsAhead(stream: seq<byte>, token: seq<byte>, chunked: bool, self: RecvBuffer)
    requires Searching(stream, 0, chunked, self) && Ends(stream, token, chunked, self)
    requires NoMatch(self.Contents(), token)
    ensures StillAhead(chunked, self)
  {
    hide NoMatch, After, Out;
    InStream(stream, chunked, self);
    if |self.Contents()| == |stream| {
      assert self.Contents() == stream;
    }
    RestIsAhead(stream, 0, chunked, self);
  }

  lemma BreaksSearch(error: Error, self: RecvBuffer, token: seq<byte>, max: nat)
    requires FetchBroke(error, self.mode, self.serverSocket)
    ensures SearchBroke(error, self, token, max)
  {
  }

  lemma CourseHead(have: nat, need: nat, now: nat)
    requires OnCourse(have, need, now) && now < need
    ensures have <= now <= LastStart(have, need)
  {
  }

  lemma ReachEarly(have: nat, size: nat, need: nat, token: nat, max: nat)
    ensures need <= have || LastStart(have, need) <= token ==> Reach(have, size, need, token, max)
  {
  }

  lemma FoundOrNot(stream: seq<byte>, token: seq<byte>, m: int, now: seq<byte>, found: int)
    requires if m >= 0 then FirstMatch(stream, token, m) else NoMatch(stream, token)
    requires if found >= 0 then FirstMatch(now, token, found) else NoMatch(now, token)
    requires now <= stream
    ensures if found >= 0 then m >= 0 && m + |token| <= |now| else m >= 0 ==> |now| < m + |token|
  {
    if m >= 0 {
      MatchInPrefix(stream, token, m, now);
    } else {
      assert now == stream[0..|now|];
      MatchInWindow(stream, token, 0, |now|, found);
    }
  }

  /**
   recvBufferFindAndFetch, in every mode: fetches until the token is in the buffer, and consumes nothing. A
   first match behind the start of the stream is always found by a persistent search if it is within reach of
   the limit, and by one whose kernel shows all there is only then. A match at the very start is found if
   and only if the buffer has come to hold more than the token: if the reader is told the token, a fetch that
   brings exactly that ends the transmission, and the next fetch fails. When the kernel shows all there is
   this depends only on where the fetches begin.
   */
  method FindAndFetch(self: RecvBuffer, token: seq<byte>, max: nat) returns (error: Option<Error>)
    requires |token| >= 2 && Findable(token, self)
    modifies self`buffer, self`mode, self.serverSocket
    ensures var (chunked, stream, have) := (old(self.mode.ChunkLength?),
              old(self.Contents() + Rest(self.mode.ChunkLength?, self)), |old(self.Contents())|);
      var (m, told) := (FirstFrom(stream, token, 0), |token| <= max && old(Driven(token, self)));
      && Searching(stream, 0, chunked, self) && old(self.Contents()) <= self.Contents()
      && (error == None ==> self.buffer.Some? && m >= 0 && m + |token| <= |self.Contents()|)
      && (error.Some? ==> SearchBroke(error.value, self, token, max))
      && (max < |token| ==> error == Some(TokenBiggerThenBufferLimits) && self.Contents() == old(self.Contents()))
      && (told && m > 0 && !chunked && Steady(self.serverSocket) ==>
            (Reach(have, |stream|, m + |token|, |token|, max) ==> error == None))
      && (told && m > 0 && Willing(self.serverSocket) ==>
            (error == None <==> Reach(have, |stream|, m + |token|, |token|, max)))
      && (told && m == 0 && !chunked && Steady(self.serverSocket) ==> (error == None <==> |self.Contents()| > |token|))
      && (told && m == 0 && Willing(self.serverSocket) ==>
            if old(TokenAtStart(token, self)) then error == None <==> StartSize(have, |token|, |stream|) > |token|
            else (|stream| > |token| ==> error == None) && (!chunked && error == None ==> |stream| > |token|))
      && (told && old(ShowsToken(self, token)) ==> error == Some(RequestCompleted))
  {
    hide FirstMatch, MatchAt, FetchBroke, Searching, Searchable, Persistent, Waiting, NoMatch, OnCourse, LastStart,
      Reach, FirstFrom, Steady, Driven, Covers, StartSize, Fate, Ends, Findable, Lasting;
    ghost var chunked, stream := FindableStarts(token, self);
    ghost var (m, have, shows) := (FirstFrom(stream, token, 0), |self.Contents()|, ShowsToken(self, token));
    ghost var told := |token| <= max && Driven(token, self);
    FirstOrNone(stream, token);
    if max < |token| {
      return Some(TokenBiggerThenBufferLimits);
    }
    ghost var eager := Persistent(chunked, token, self);
    DrivenPersists(chunked, token, self);
    error := FetchFirst(self, token, stream, chunked, m);
    ghost var m' := if eager then m else -1;
    if error.Some? {
      BreaksSearch(error.value, self, token, max);
      return;
    }
    SameFateEnds(stream, token, chunked, self);
    ReachEarly(have, |stream|, m + |token|, |token|, max);
    while true
      invariant error == None && self.buffer.Some? && |self.Contents()| >= |token|
      invariant !chunked ==> |self.Contents()| > |token|
      invariant Searching(stream, 0, chunked, self) && old(self.Contents()) <= self.Contents()
      invariant eager ==> Persistent(chunked, token, self)
      invariant Ends(stream, token, chunked, self)
      invariant m' > 0 ==> OnCourse(have, m + |token|, |self.Contents()|) && |self.Contents()| > |token|
      invariant m' > 0 && |self.Contents()| >= m + |token| && Willing(self.serverSocket) ==>
        Reach(have, |stream|, m + |token|, |token|, max)
      decreases |self.serverSocket.unread|, Waiting(chunked, self.serverSocket)
    {
      var found := Find(self, token);
      InStream(stream, chunked, self);
      FoundOrNot(stream, token, m, self.Contents(), found);
      if found != -1 {
        return;
      }
      error := SearchMore(self, token, max, stream, chunked, m', have);
      if error.Some? {
        return;
      }
    }
  }

  // ---- the header

  const BLANK_LINE: seq<byte> := CRLF + CRLF
  const MAX_HEADER: nat := 4096

  /** No letters, so the search by letters is a search by bytes. */
  lemma BlankLineAt(s: seq<byte>, i: int)
    ensures MatchAt(s, BLANK_LINE, i) <==> i >= 0 && At(s, BLANK_LINE, i)
  {
    if 0 <= i && i + 4 <= |s| {
      var four := s[i..i + 4];
      assert BLANK_LINE == [CR, LF, CR, LF];
      if SameLetters(four, BLANK_LINE) {
        assert Upper(four[0]) == Upper(CR) && Upper(four[1]) == Upper(LF);
        assert Upper(four[2]) == Upper(CR) && Upper(four[3]) == Upper(LF);
        assert four == BLANK_LINE;
      }
    }
  }

  /** `strstr` on the buffer finds the first blank line of the stream, if no NUL comes before it. */
  lemma HeaderEnd(stream: seq<byte>, now: seq<byte>, m: nat)
    requires now <= stream && FirstMatch(stream, BLANK_LINE, m) && m + 4 <= |now|
    ensures StrStr(now, BLANK_LINE, 0) == if NUL in stream[..m] then -1 else m
    ensures At(now, BLANK_LINE, m) && now[0..m] == stream[..m]
  {
    assert now == stream[0..|now|];
    MatchInWindow(stream, BLANK_LINE, 0, |now|, m);
    BlankLineAt(now, m);
    assert now[0..m] == stream[..m];
    var t := StrStr(now, BLANK_LINE, 0);
    if t >= 0 {
      BlankLineAt(now, t);
      MatchInWindow(stream, BLANK_LINE, 0, |now|, t);
      hide MatchAt, StrStr;
      assert m <= t;
    }
  }

  /** Cutting a stream at the blank line at `t`. */
  lemma HeaderCutOff(now: seq<byte>, unread: seq<byte>, t: nat)
    requires At(now, BLANK_LINE, t) && NUL !in now[0..t]
    ensures NulFree(now[..t + 2]) && now[..t + 2] + CRLF + (now[t + 4..] + unread) == now + unread
  {
    var four := now[t..t + 4];
    assert four[0] == CR && four[1] == LF && four[2] == CR && four[3] == LF;
    assert now[..t + 2] == now[0..t] + [now[t], now[t + 1]];
    assert now[..t + 4] == now[..t + 2] + [now[t + 2], now[t + 3]];
    assert now == now[..t + 4] + now[t + 4..];
  }

  /** Why a header is not read. */
  ghost predicate HeaderBroke(error: Error, self: RecvBuffer)
    reads self, self.serverSocket
  {
    match error
    case NoTokenFound => StrStr(self.Contents(), BLANK_LINE, 0) < 0
    case _ => SearchBroke(error, self, BLANK_LINE, MAX_HEADER)
  }

  /** The kernel's next answer brings the stream up to the end of a blank line that it starts with. */
  ghost predicate ShowsBlankLine(self: RecvBuffer)
    reads self, self.serverSocket
  {
    var l := FirstPiece(self.serverSocket, SB_DATA_SIZE);
    l > 0 && l <= |self.serverSocket.unread| && self.Contents() + self.serverSocket.unread[..l] == BLANK_LINE
  }

  /**
   ioHttpResponseHeaderRead. When it succeeds the header, the blank line behind it, the buffer and the
   socket are together the stream that was there before, cut at the first blank line; when it fails no byte
   is lost. A header that no NUL cuts short and that ends behind the start of the stream is read from every
   steady kernel if it is within reach, and from one that shows all there is only then. A blank line at the
   very start is found if and only if more than its four bytes have been fetched.
   */
  method HeaderRead(self: RecvBuffer) returns (error: Option<Error>, header: seq<byte>)
    modifies self`buffer, self`mode, self.serverSocket
    ensures !self.mode.ChunkLength?
    ensures var (stream, rest) :=
      (old(self.Contents() + self.serverSocket.unread), self.Contents() + self.serverSocket.unread);
      var (m, have) := (FirstFrom(stream, BLANK_LINE, 0), |old(self.Contents())|);
      && (error == None ==> |header| >= 2 && NulFree(header) && m == |header| - 2 && header + CRLF + rest == stream)
      && (error.Some? ==> header == [] && rest == stream && HeaderBroke(error.value, self))
      && (m > 0 && Steady(self.serverSocket) && NUL !in stream[..m] && Reach(have, |stream|, m + 4, 4, 4096) ==>
            error == None)
      && (m > 0 && Willing(self.serverSocket) ==>
            (error == None <==> NUL !in stream[..m] && Reach(have, |stream|, m + 4, 4, 4096)))
      && (m == 0 && Steady(self.serverSocket) ==> (error == None <==> |stream| - |self.serverSocket.unread| > 4))
      && (m == 0 && Willing(self.serverSocket) ==>
            (error == None <==> (if have < 4 then StartSize(have, 4, |stream|) else |stream|) > 4))
      && (old(ShowsBlankLine(self)) ==> error == Some(RequestCompleted))
  {
    hide NoMatch, FirstMatch, MatchAt, SearchBroke, StrStr, At, Reach, FirstFrom, Steady, Searching, Out, StartSize,
      Findable, Driven, Fate;
    ghost var (base, before) := (self.Contents(), self.serverSocket.unread);
    ghost var stream := base + before;
    ghost var m := FirstFrom(stream, BLANK_LINE, 0);
    FirstOrNone(stream, BLANK_LINE);
    BlankLineMatches();
    header := [];
    self.mode := TokenLength(BLANK_LINE);
    TokenIsFindable(BLANK_LINE, self);
    error := FindAndFetch(self, BLANK_LINE, MAX_HEADER);
    FetchedRaw(stream, self);
    if error.Some? {
      BreaksHeader(error.value, self);
      return;
    }
    var now := self.Contents();
    HeaderEnd(stream, now, m);
    var t := StrStr(now, BLANK_LINE, 0);
    if t < 0 {
      return Some(NoTokenFound), [];
    }
    HeaderCutOff(now, self.serverSocket.unread, t);
    Ditch(self, t + 4);
    header := now[..t + 2];
  }

  lemma TokenIsFindable(token: seq<byte>, self: RecvBuffer)
    requires self.mode == TokenLength(token)
    ensures Findable(token, self) && Driven(token, self)
  {
  }

  lemma BreaksHeader(error: Error, self: RecvBuffer)
    requires SearchBroke(error, self, BLANK_LINE, MAX_HEADER)
    ensures HeaderBroke(error, self)
  {
  }

  lemma BlankLineMatches()
    ensures !NoMatch(BLANK_LINE, BLANK_LINE) && |BLANK_LINE| == 4 && BLANK_LINE == [13, 10, 13, 10]
  {
    assert BLANK_LINE[0..0 + 4] == BLANK_LINE;
    assert MatchAt(BLANK_LINE, BLANK_LINE, 0);
  }

  lemma FetchedRaw(stream: seq<byte>, self: RecvBuffer)
    requires Searching(stream, 0, false, self)
    ensures self.Contents() + self.serverSocket.unread == stream && self.Contents() <= stream
    ensures |self.Contents()| == |stream| - |self.serverSocket.unread|
    ensures !self.mode.ChunkLength?
  {
    assert stream[0..] == stream;
  }
}
