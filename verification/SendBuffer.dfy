/**
 The server's outgoing buffer (src/server/sendbufr.c). Data goes straight to a non-blocking
 socket while nothing is queued; whatever the kernel does not take is spilled into a memory
 stream and sent by later flushes.

 The kernel is an arbitrary script: the answer to the k-th `send` on a socket is `kernel(k)`,
 so a statement for every script is a statement for every behaviour of `send`.
 */
module SendBuffers {
  import opened Bytes

  type positive = n: nat | 0 < n witness 1

  /** SB_DATA_SIZE differs between platforms; nothing in the sender depends on its value. */
  const SB_DATA_SIZE: positive

  datatype Answer = Accepts(n: nat) | TryAgain | Broken

  /**
   The remote end as one send buffer sees it: the answers that its own sends get, and as `wire` the
   bytes that were there when it was made, followed by those it has put there since. Two buffers on
   one descriptor see a peer each; what the client then receives is in KeepAlive.dfy.
   */
  datatype Peer = Peer(fd: nat, kernel: nat -> Answer, calls: nat, wire: seq<byte>)
  {
    function Reply(): Answer { kernel(calls) }

    function Taken(data: seq<byte>): nat {
      match Reply()
      case Accepts(n) => Min(n, |data|)
      case _ => 0
    }

    function AfterSend(data: seq<byte>): Peer {
      this.(calls := calls + 1, wire := wire + data[..Taken(data)])
    }

    /** From now on every `send` takes at least one byte. */
    ghost predicate Eager() {
      forall k :: calls <= k ==> kernel(k).Accepts? && kernel(k).n > 0
    }

    /** From now on no `send` fails hard. */
    ghost predicate Unbroken() {
      forall k :: calls <= k ==> !kernel(k).Broken?
    }

    /** From now on every `send` takes a whole block. */
    ghost predicate Roomy() {
      forall k :: calls <= k ==> kernel(k).Accepts? && kernel(k).n >= SB_DATA_SIZE
    }

    /** The next `send` takes at least one byte. */
    predicate Takes() { Reply().Accepts? && Reply().n > 0 }
  }

  /** A memory stream: its bytes and the position of its cursor. */
  datatype Stream = Stream(bytes: seq<byte>, pos: nat)

  datatype SendState = SendState(idx: nat, buffer: Option<Stream>, failed: bool, peer: Peer)
  {
    /** A buffer exists exactly when there are unsent bytes; without one the index is zero. */
    ghost predicate Valid() {
      match buffer
      case None => idx == 0
      case Some(m) => idx < |m.bytes| && m.pos <= |m.bytes|
    }

    function Pending(): seq<byte> {
      if buffer.Some? && idx <= |buffer.value.bytes| then buffer.value.bytes[idx..] else []
    }

    /** Everything taken from the caller: already on the wire, or queued behind it. */
    function Accepted(): seq<byte> { peer.wire + Pending() }

    function Buffered(): nat { if buffer.Some? then |buffer.value.bytes| else 0 }
  }

  // ---- sendBufferFlush and sendBufferWriteData on values

  /** Flushing reads the stream forward from the first unsent byte. */
  ghost predicate AtCursor(s: SendState) {
    s.buffer.Some? && s.idx == s.buffer.value.pos <= |s.buffer.value.bytes|
  }

  function NextBlock(s: SendState): seq<byte> {
    if s.buffer.Some? then Slice(s.buffer.value.bytes, s.buffer.value.pos, s.buffer.value.pos + SB_DATA_SIZE) else []
  }

  /** One read and one `send` of the flush loop: a refused block leaves the cursor behind it. */
  function SendBlockOf(s: SendState): SendState
    requires AtCursor(s)
  {
    var (m, data) := (s.buffer.value, NextBlock(s));
    var n := s.peer.Taken(data);
    var moved := if s.peer.Reply().Accepts? then n else |data|;
    s.(peer := s.peer.AfterSend(data), idx := s.idx + n, failed := s.failed || s.peer.Reply().Broken?,
       buffer := Some(m.(pos := m.pos + moved)))
  }

  /** The loop of sendBufferFlush, from the top of one iteration. */
  function FlushFrom(s: SendState, flushed: nat): (SendState, nat)
    requires AtCursor(s)
    decreases |s.buffer.value.bytes| - s.idx
  {
    var data := NextBlock(s);
    if data == [] then
      (s.(buffer := None, idx := 0), flushed)
    else
      var n := s.peer.Taken(data);
      if s.peer.Reply().Broken? then (SendBlockOf(s), 0)
      else if n < |data| then (SendBlockOf(s), flushed + n)
      else FlushFrom(SendBlockOf(s), flushed + n)
  }

  function Rewound(s: SendState): SendState {
    if s.buffer.Some? then s.(buffer := Some(s.buffer.value.(pos := s.idx))) else s
  }

  function FlushOf(s: SendState): (SendState, nat)
    requires s.Valid()
  {
    if s.buffer.None? then (s, 0) else FlushFrom(Rewound(s), 0)
  }

  function WriteOf(s: SendState, data: seq<byte>): (SendState, nat) {
    if s.buffer.Some? then
      var bytes := s.buffer.value.bytes + data;
      (s.(buffer := Some(Stream(bytes, |bytes|))), |data|)
    else
      var peer := s.peer.AfterSend(data);
      var n := s.peer.Taken(data);
      if s.peer.Reply().Broken? then (s.(peer := peer, failed := true), 0)
      else if n < |data| then (s.(peer := peer, buffer := Some(Stream(data[n..], |data| - n))), |data|)
      else (s.(peer := peer), n)
  }

  // ---- what every call keeps

  /** `t` is `s` some sends later: same socket, `more` accepted in between, nothing taken back. */
  ghost predicate Follows(s: SendState, t: SendState, more: seq<byte>) {
    && t.peer.fd == s.peer.fd && t.peer.kernel == s.peer.kernel && s.peer.calls <= t.peer.calls
    && s.peer.wire <= t.peer.wire
    && t.Accepted() == s.Accepted() + more
    && (s.failed ==> t.failed)
    && (s.peer.Unbroken() ==> t.failed == s.failed)
  }

  lemma FollowsTrans(s: SendState, t: SendState, u: SendState, a: seq<byte>, b: seq<byte>)
    requires Follows(s, t, a) && Follows(t, u, b)
    ensures Follows(s, u, a + b)
  {
    assert s.Accepted() + a + b == s.Accepted() + (a + b);
  }

  /** `t` is a valid state of the same buffer later on; a failure is never forgotten. */
  ghost predicate Onward(s: SendState, t: SendState) {
    && t.Valid()
    && t.peer.fd == s.peer.fd && t.peer.kernel == s.peer.kernel && s.peer.calls <= t.peer.calls
    && s.peer.wire <= t.peer.wire
    && (s.failed ==> t.failed)
    && (s.peer.Eager() ==> t.peer.Eager() && t.failed == s.failed)
    && (s.peer.Unbroken() ==> t.peer.Unbroken() && t.failed == s.failed)
    && (s.peer.Roomy() ==> t.peer.Roomy())
  }

  lemma FollowsOnward(s: SendState, t: SendState, more: seq<byte>)
    requires Follows(s, t, more) && t.Valid()
    ensures Onward(s, t) && t.Accepted() == s.Accepted() + more
  {
  }

  lemma OnwardTrans(s: SendState, t: SendState, u: SendState)
    requires Onward(s, t) && Onward(t, u)
    ensures Onward(s, u)
  {
  }

  lemma OnwardSame(s: SendState)
    requires s.Valid()
    ensures Onward(s, s)
  {
  }

  lemma OnwardFacts(s: SendState, t: SendState)
    requires Onward(s, t)
    ensures t.Valid() && (s.failed ==> t.failed) && (s.peer.Roomy() ==> t.peer.Roomy())
  {
  }

  lemma NothingQueued(s: SendState)
    requires s.buffer.None?
    ensures s.Accepted() == s.peer.wire
  {
    assert s.peer.wire + [] == s.peer.wire;
  }

  lemma MoveAcross(wire: seq<byte>, bytes: seq<byte>, idx: nat, block: seq<byte>, n: nat)
    requires idx <= |bytes| && block <= bytes[idx..] && n <= |block|
    ensures wire + block[..n] + bytes[idx + n..] == wire + bytes[idx..]
  {
    assert bytes[idx..] == block[..n] + bytes[idx + n..];
    assert wire + block[..n] + bytes[idx + n..] == wire + (block[..n] + bytes[idx + n..]);
  }

  lemma SendBlockKeeps(s: SendState)
    requires AtCursor(s) && NextBlock(s) != []
    ensures Follows(s, SendBlockOf(s), [])
    ensures |SendBlockOf(s).peer.wire| == |s.peer.wire| + s.peer.Taken(NextBlock(s))
  {
    var (bytes, block) := (s.buffer.value.bytes, NextBlock(s));
    var (n, t) := (s.peer.Taken(block), SendBlockOf(s));
    assert block <= bytes[s.idx..];
    MoveAcross(s.peer.wire, bytes, s.idx, block, n);
    assert t.peer.wire == s.peer.wire + block[..n];
    assert t.Pending() == bytes[s.idx + n..];
    assert s.Accepted() + [] == s.Accepted();
  }

  /** The last `send` has taken less than it was offered, or nothing. */
  ghost predicate StoppedBy(t: SendState) {
    t.peer.calls > 0
    && match t.peer.kernel(t.peer.calls - 1)
       case Accepts(n) => n < SB_DATA_SIZE
       case _ => true
  }

  lemma StoppedHere(s: SendState)
    requires AtCursor(s) && NextBlock(s) != []
    requires s.peer.Reply().Broken? || s.peer.Taken(NextBlock(s)) < |NextBlock(s)|
    ensures StoppedBy(SendBlockOf(s))
  {
    var t := SendBlockOf(s);
    assert t.peer.kernel(t.peer.calls - 1) == s.peer.Reply();
    assert s.peer.Reply().Accepts? ==> s.peer.Reply().n < |NextBlock(s)| <= SB_DATA_SIZE;
  }

  lemma {:induction false} FlushFromKeeps(s: SendState, flushed: nat)
    requires AtCursor(s)
    ensures var (t, n) := FlushFrom(s, flushed);
      && t.Valid() && Follows(s, t, []) && t.Buffered() <= s.Buffered()
      && (t.failed ==> s.failed || n == 0)
      && (n == 0 || n == flushed + |t.peer.wire| - |s.peer.wire|)
      && (!t.failed || s.peer.Unbroken() ==> n >= flushed)
      && (s.peer.Unbroken() && s.peer.Takes() && NextBlock(s) != [] ==> n > flushed)
      && (NextBlock(s) != [] ==> s.peer.calls < t.peer.calls && (t.buffer.Some? ==> StoppedBy(t)))
    decreases |s.buffer.value.bytes| - s.idx
  {
    var data := NextBlock(s);
    if data == [] {
      assert FlushFrom(s, flushed).0.Accepted() == s.Accepted() + [];
    } else {
      SendBlockKeeps(s);
      var (s', n) := (SendBlockOf(s), s.peer.Taken(data));
      assert s.peer.Unbroken() ==> s'.peer.Unbroken() && s'.failed == s.failed;
      assert s'.peer.calls == s.peer.calls + 1;
      hide Follows, StoppedBy;
      if n < |data| || s.peer.Reply().Broken? {
        StoppedHere(s);
      }
      if n == |data| {
        FlushFromKeeps(s', flushed + n);
        FollowsTrans(s, s', FlushFrom(s, flushed).0, [], []);
      }
    }
  }

  lemma EagerIsUnbroken(p: Peer)
    ensures p.Eager() ==> p.Unbroken() && p.Takes()
  {
  }

  /**
   A flush moves a front part of the queue onto the wire and reports how much, unless it failed. It goes on
   until the queue is empty or a send does not take a whole block.
   */
  lemma FlushKeeps(s: SendState)
    requires s.Valid()
    ensures var (t, n) := FlushOf(s);
      && t.Valid() && Follows(s, t, []) && t.Buffered() <= s.Buffered()
      && (t.failed && !s.failed ==> n == 0)
      && (n > 0 ==> n == |t.peer.wire| - |s.peer.wire| == |s.Pending()| - |t.Pending()|)
      && (s.peer.Eager() && s.buffer.Some? ==> n > 0)
      && (s.peer.Unbroken() && s.peer.Takes() && s.buffer.Some? ==> n > 0)
      && (s.buffer.Some? && s.peer.Reply() == TryAgain ==> n == 0)
      && (if s.buffer.None? then t == s else s.peer.calls < t.peer.calls && (t.buffer.Some? ==> StoppedBy(t)))
  {
    EagerIsUnbroken(s.peer);
    assert s.Accepted() + [] == s.Accepted();
    if s.buffer.Some? {
      FlushFromKeeps(Rewound(s), 0);
      var t := FlushOf(s).0;
      assert t.Accepted() == s.Accepted();
      assert |t.Accepted()| == |t.peer.wire| + |t.Pending()|;
      assert |s.Accepted()| == |s.peer.wire| + |s.Pending()|;
    }
  }

  /** A socket that takes whole blocks is sent the whole queue. */
  lemma RoomyFlush(s: SendState, t: SendState)
    requires Onward(s, t) && s.peer.Roomy()
    ensures FlushOf(t).0.buffer.None?
  {
    FlushKeeps(t);
  }

  lemma FlushValid(s: SendState)
    requires s.Valid()
    ensures FlushOf(s).0.Valid()
  {
    FlushKeeps(s);
  }

  /**
   A write accepts all of its data, or fails hard before taking any. With nothing queued it is one send, whose
   rest is queued; with something queued it is none.
   */
  lemma WriteKeeps(s: SendState, data: seq<byte>)
    requires s.Valid()
    ensures var (t, n) := WriteOf(s, data);
      && (n == |data| || (n == 0 && t.failed))
      && t.Valid() && Follows(s, t, data[..n])
      && t.Buffered() <= s.Buffered() + n
      && (data != [] && t.buffer.Some? ==> t.buffer.value.pos == t.Buffered())
      && (if s.buffer.Some? then t.peer == s.peer && t.failed == s.failed
          else
            && t.peer.calls == s.peer.calls + 1 && (t.failed <==> s.failed || s.peer.Reply().Broken?)
            && t.peer.wire == s.peer.wire + data[..s.peer.Taken(data)])
  {
    WriteAccepts(s, data);
    hide SendState.Accepted, SendState.Pending;
  }

  lemma WriteAccepts(s: SendState, data: seq<byte>)
    requires s.Valid()
    ensures var (t, n) := WriteOf(s, data);
      n <= |data| && t.Accepted() == s.Accepted() + data[..n] && s.peer.wire <= t.peer.wire
  {
    var (t, n) := WriteOf(s, data);
    if s.buffer.Some? {
      BehindQueue(s.peer.wire, s.buffer.value.bytes, s.idx, data);
      assert t.Pending() == (s.buffer.value.bytes + data)[s.idx..];
    } else {
      BehindWire(s.peer.wire, data, s.peer.Taken(data));
      assert s.Accepted() == s.peer.wire;
      assert n > 0 ==> t.Pending() == data[s.peer.Taken(data)..];
    }
  }

  lemma BehindQueue(wire: seq<byte>, bytes: seq<byte>, idx: nat, data: seq<byte>)
    requires idx <= |bytes|
    ensures wire + (bytes + data)[idx..] == wire + bytes[idx..] + data && data[..|data|] == data
  {
    assert (bytes + data)[idx..] == bytes[idx..] + data;
  }

  lemma BehindWire(wire: seq<byte>, data: seq<byte>, k: nat)
    requires k <= |data|
    ensures wire + data[..k] + data[k..] == wire + data
    ensures wire + [] == wire && data[..|data|] == data && data[..0] == []
  {
  }

  // ---- every sequence of calls

  datatype Call = WriteCall(data: seq<byte>) | FlushCall

  /** The state after `calls`, and the prefixes that the writes reported as taken, in order. */
  function RunCalls(s: SendState, calls: seq<Call>): (SendState, seq<byte>)
    requires s.Valid()
    decreases |calls|
  {
    if calls == [] then (s, [])
    else
      match calls[0]
      case FlushCall =>
        FlushKeeps(s);
        RunCalls(FlushOf(s).0, calls[1..])
      case WriteCall(data) =>
        WriteKeeps(s, data);
        var (t, n) := WriteOf(s, data);
        var (u, more) := RunCalls(t, calls[1..]);
        (u, data[..n] + more)
  }

  /** Nothing accepted is lost, repeated or reordered, whatever `send` answers. */
  lemma {:induction false} Conservation(s: SendState, calls: seq<Call>)
    requires s.Valid()
    ensures var (t, accepted) := RunCalls(s, calls);
      && t.peer.wire + t.Pending() == s.peer.wire + s.Pending() + accepted
      && s.peer.wire <= t.peer.wire
      && (t.buffer.None? <==> t.Pending() == []) && (t.buffer.None? ==> t.idx == 0)
  {
    var (t, accepted) := RunCalls(s, calls);
    RunCallsFollow(s, calls);
  }

  lemma {:induction false} RunCallsFollow(s: SendState, calls: seq<Call>)
    requires s.Valid()
    ensures var (t, accepted) := RunCalls(s, calls); t.Valid() && Follows(s, t, accepted)
    decreases |calls|
  {
    if calls == [] {
      assert s.Accepted() + [] == s.Accepted();
    } else {
      var rest := calls[1..];
      match calls[0]
      case FlushCall =>
        FlushKeeps(s);
        var t := FlushOf(s).0;
        RunCallsFollow(t, rest);
        var (u, more) := RunCalls(t, rest);
        FollowsTrans(s, t, u, [], more);
        assert [] + more == more;
      case WriteCall(data) =>
        WriteKeeps(s, data);
        var (t, n) := WriteOf(s, data);
        RunCallsFollow(t, rest);
        FollowsTrans(s, t, RunCalls(t, rest).0, data[..n], RunCalls(t, rest).1);
    }
  }

  // ---- the objects

  const SOC_BUF_ERR_FULL: bv8 := 4
  const SOC_BUF_ERR_FAIL: bv8 := 8

  /** A descriptor as one send buffer sees it. */
  class Socket {
    const fd: nat
    const kernel: nat -> Answer
    var calls: nat
    ghost var wire: seq<byte>

    ghost function Model(): Peer
      reads this
    {
      Peer(fd, kernel, calls, wire)
    }

    constructor (fd: nat, kernel: nat -> Answer, ghost wire: seq<byte>)
      ensures Model() == Peer(fd, kernel, 0, wire)
    {
      this.fd, this.kernel := fd, kernel;
      calls, this.wire := 0, wire;
    }

    /** `send`: how many bytes the kernel takes, or why it takes none. */
    method Send(data: seq<byte>) returns (r: Answer)
      modifies this
      ensures Model() == old(Model()).AfterSend(data)
      ensures r == if old(Model()).Reply().Accepts? then Accepts(old(Model()).Taken(data)) else old(Model()).Reply()
    {
      r := kernel(calls);
      calls := calls + 1;
      if r.Accepts? {
        r := Accepts(Min(r.n, |data|));
        wire := wire + data[..r.n];
      } else {
        wire := wire + data[..0];
      }
    }
  }

  /** One turn of the flush loop that finds a block to send: what it returns, or goes on from. */
  lemma FlushTurn(s: SendState, flushed: nat)
    requires AtCursor(s)
    ensures NextBlock(s) == [] ==> FlushFrom(s, flushed) == (s.(buffer := None, idx := 0), flushed)
    ensures NextBlock(s) != [] ==>
      var (n, t) := (s.peer.Taken(NextBlock(s)), SendBlockOf(s));
      if s.peer.Reply().Broken? then FlushFrom(s, flushed) == (t, 0)
      else if n < |NextBlock(s)| then FlushFrom(s, flushed) == (t, flushed + n)
      else
        AtCursor(t) && |t.buffer.value.bytes| - t.idx < |s.buffer.value.bytes| - s.idx
        && FlushFrom(s, flushed) == FlushFrom(t, flushed + n)
  {
  }

  /** How many blocks `n` bytes are. */
  function Blocks(n: nat): nat { if n <= SB_DATA_SIZE then 1 else 1 + Blocks(n - SB_DATA_SIZE) }

  /** A socket that takes whole blocks is offered the queue in as many as it is, and takes it all. */
  lemma {:induction false} FlushBlocks(s: SendState, flushed: nat)
    requires AtCursor(s) && NextBlock(s) != []
    requires s.peer.Roomy()
    ensures var t := FlushFrom(s, flushed).0;
      t.buffer.None? && t.peer.calls == s.peer.calls + Blocks(|s.buffer.value.bytes| - s.idx)
    decreases |s.buffer.value.bytes| - s.idx
  {
    FlushTurn(s, flushed);
    var (t, n) := (SendBlockOf(s), s.peer.Taken(NextBlock(s)));
    assert n == |NextBlock(s)| == Min(|s.buffer.value.bytes| - s.idx, SB_DATA_SIZE);
    if NextBlock(t) != [] {
      FlushBlocks(t, flushed + n);
    } else {
      FlushTurn(t, flushed + n);
    }
  }

  /** A flush that stops leaves the cursor at the first unsent byte, or behind the block that was refused. */
  lemma {:induction false} FlushCursor(s: SendState, flushed: nat)
    requires AtCursor(s)
    ensures var t := FlushFrom(s, flushed).0;
      t.buffer.Some? ==>
        && t.peer.calls > 0
        && t.buffer.value.pos == if t.peer.kernel(t.peer.calls - 1).Accepts? then t.idx
                                 else Min(t.idx + SB_DATA_SIZE, |t.buffer.value.bytes|)
    decreases |s.buffer.value.bytes| - s.idx
  {
    FlushTurn(s, flushed);
    if NextBlock(s) != [] {
      var (t, n) := (SendBlockOf(s), s.peer.Taken(NextBlock(s)));
      assert t.peer.kernel(t.peer.calls - 1) == s.peer.Reply();
      if n == |NextBlock(s)| {
        FlushCursor(t, flushed + n);
      }
    }
  }

  /** The error bits as sendbufr.h numbers them. */
  lemma ErrorsAre()
    ensures SOC_BUF_ERR_FULL == 4 && SOC_BUF_ERR_FAIL == 8
  {
  }

  class SendBuffer {
    var idx: nat
    var buffer: Option<Stream>
    var options: bv8
    const clientSocket: Socket

    ghost function Model(): SendState
      reads this, clientSocket
    {
      SendState(idx, buffer, options == SOC_BUF_ERR_FAIL, clientSocket.Model())
    }

    ghost predicate Valid()
      reads this, clientSocket
    {
      Model().Valid() && (options == 0 || options == SOC_BUF_ERR_FAIL)
    }

    constructor (clientSocket: Socket)
      ensures Valid() && this.clientSocket == clientSocket
      ensures Model() == SendState(0, None, false, clientSocket.Model())
    {
      this.clientSocket := clientSocket;
      idx, buffer, options := 0, None, 0;
    }

    /** One pass of the flush loop: read a block, offer it, put the cursor back on a short send. */
    method SendBlock() returns (size: nat, flush: Answer)
      requires AtCursor(Model())
      modifies this, clientSocket
      ensures options == if flush.Broken? then 8 else old(options)
      ensures size == |NextBlock(old(Model()))|
      ensures size == 0 ==> Model() == old(Model()) && flush == TryAgain
      ensures size > 0 ==> Model() == SendBlockOf(old(Model()))
      ensures size > 0 ==> flush.Broken? == old(Model()).peer.Reply().Broken?
      ensures size > 0 ==> (if flush.Accepts? then flush.n else 0) == old(Model()).peer.Taken(NextBlock(old(Model())))
    {
      ghost var s := Model();
      var data := Slice(buffer.value.bytes, buffer.value.pos, buffer.value.pos + SB_DATA_SIZE);
      size := |data|;
      if size == 0 {
        return size, TryAgain;
      }
      buffer := Some(buffer.value.(pos := buffer.value.pos + |data|));
      flush := clientSocket.Send(data);
      if flush.Broken? {
        options := SOC_BUF_ERR_FAIL;
      } else if flush.Accepts? {
        buffer := Some(buffer.value.(pos := buffer.value.pos - (|data| - flush.n)));
        idx := idx + flush.n;
      }
      assert Model() == SendBlockOf(s);
    }

    /** One pass of the flush loop, and whether it is the last one. */
    method FlushPass(flushed: nat) returns (last: bool, result: nat)
      requires AtCursor(Model()) && (options == 0 || options == SOC_BUF_ERR_FAIL)
      modifies this, clientSocket
      ensures options == 0 || options == SOC_BUF_ERR_FAIL
      ensures last ==> Model() == FlushFrom(old(Model()), flushed).0 && result == FlushFrom(old(Model()), flushed).1
      ensures !last ==>
        AtCursor(Model()) && FlushFrom(Model(), result) == FlushFrom(old(Model()), flushed)
        && |Model().buffer.value.bytes| - Model().idx < old(|buffer.value.bytes| - idx)
    {
      FlushTurn(Model(), flushed);
      hide SendBlockOf, NextBlock, FlushFrom;
      var size, flush := SendBlock();
      if size == 0 {
        buffer, idx := None, 0;
        return true, flushed;
      } else if flush.TryAgain? {
        return true, flushed;
      } else if flush.Broken? {
        return true, 0;
      }
      return flush.n < size, flushed + flush.n;
    }

    /** sendBufferFlush */
    method Flush() returns (flushed: nat)
      requires Valid()
      modifies this, clientSocket
      ensures Valid()
      ensures Model() == FlushOf(old(Model())).0 && flushed == FlushOf(old(Model())).1
    {
      flushed := 0;
      ghost var goal := FlushOf(Model());
      FlushValid(Model());
      if buffer.None? {
        return;
      }
      buffer := Some(buffer.value.(pos := idx));
      hide FlushFrom;
      var last := false;
      while !last
        invariant options == 0 || options == SOC_BUF_ERR_FAIL
        invariant if last then Model() == goal.0 && flushed == goal.1
                  else AtCursor(Model()) && FlushFrom(Model(), flushed) == goal
        decreases if last then 0 else 1 + |Model().buffer.value.bytes| - Model().idx
      {
        last, flushed := FlushPass(flushed);
      }
    }

    /** sendBufferWriteData */
    method WriteData(data: seq<byte>) returns (bytesSent: nat)
      requires Valid()
      modifies this, clientSocket
      ensures Valid()
      ensures Model() == WriteOf(old(Model()), data).0 && bytesSent == WriteOf(old(Model()), data).1
    {
      WriteKeeps(Model(), data);
      bytesSent := 0;
      if buffer.None? {
        var sent := clientSocket.Send(data);
        if sent.Broken? {
          options := SOC_BUF_ERR_FAIL;
          return 0;
        } else if sent.Accepts? {
          bytesSent := sent.n;
        }
        if bytesSent < |data| {
          var rest := data[bytesSent..];
          buffer := Some(Stream(rest, |rest|));
          bytesSent := bytesSent + |rest|;
        }
      } else {
        var bytes := buffer.value.bytes + data;
        buffer := Some(Stream(bytes, |bytes|));
        bytesSent := |data|;
      }
    }
  }
}
