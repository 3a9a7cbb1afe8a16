/**
 What the client of one connection receives when several routines send to its socket
 (src/server/server.c, src/server/routine.c). Nothing keeps a request from being read while a routine
 of an earlier one is still in the array: each send buffer keeps its own bytes in order, but only the
 order in which the buffers take turns decides what arrives.
 */
module KeepAlive {
  import opened Bytes
  import opened SendBuffers
  import opened Routines
  import opened Ticks
  import opened Provenance
  import opened Servers

  /** What a routine has put on its socket from `r` to `t`. */
  function Sent(r: RoutineState, t: RoutineState): seq<byte> {
    if r.sb.peer.wire <= t.sb.peer.wire then t.sb.peer.wire[|r.sb.peer.wire|..] else []
  }

  /** The bytes that a tick puts on one socket, in the order in which the routines come to send them. */
  function TickSends(rs: seq<RoutineState>, marked: set<nat>, fd: nat): seq<byte>
    requires AllSteppable(rs)
  {
    if rs == [] then []
    else
      var o := StepIn(rs[0], marked);
      var marked' := Remark(marked, rs[0].Fd(), o.marked);
      var first := if rs[0].Fd() == fd then Sent(rs[0], o.r) else [];
      if !o.deleted then first + TickSends(rs[1..], marked', fd)
      else if |rs| == 1 then first
      else first + TickSends(rs[2..], marked', fd)
  }

  function WireAfter(s: Server, wire: seq<byte>, e: Event, fd: nat): seq<byte>
    requires Legal(s, e)
  {
    match e
    case TickAll => wire + TickSends(s.routines, s.marked, fd)
    case Arrive(r) => if r.Fd() == fd then r.sb.peer.wire else wire
    case Answer(at, sent) => if at == fd then wire + sent else wire
    case _ => wire
  }

  /** All that a run puts on a socket on which `wire` had been sent, over all connections that it has in turn. */
  function Received(s: Server, wire: seq<byte>, events: seq<Event>, fd: nat): seq<byte>
    requires LegalRun(s, events)
    decreases |events|
  {
    if events == [] then wire
    else Received(Apply(s, events[0]), WireAfter(s, wire, events[0], fd), events[1..], fd)
  }

  // ---- when a routine has had its turn

  /** Nothing is queued and there is nothing left to send. */
  predicate Spent(r: RoutineState) {
    || r.phase == Finish || r.phase == Fail
    || (r.sb.buffer.None?
        && match r.job
           case NoJob => true
           case FileJob(content, cursor, _, end) => cursor == end || |content| <= cursor
           case DirJob(_, _, _) => false)
  }

  /** Such a routine, and one that has failed, sends nothing more. */
  lemma SpentStays(r: RoutineState, marked: bool)
    requires Ok(r) && (Spent(r) || r.phase == Fail)
    ensures Spent(r)
    ensures var o := Step(r, marked); o.r.sb.peer.wire == r.sb.peer.wire && (o.deleted || Spent(o.r))
  {
    if r.phase == Continue && r.job.FileJob? {
      FileBlockIs(r.job, r.header, 0);
    }
    hide FlushFrom, DirBatch, FileBlock, SendState.Accepted;
  }

  /** The response of a routine without a directory. */
  function Response(r: RoutineState): seq<byte>
    requires !r.job.DirJob?
  {
    match r.job
    case NoJob => r.header
    case FileJob(content, _, start, end) => r.header + Slice(content, start, end)
  }

  lemma PartOfSlice(content: seq<byte>, start: nat, cursor: nat, end: nat)
    requires start <= cursor <= end
    ensures Slice(content, start, cursor) <= Slice(content, start, end)
    ensures |Slice(content, start, cursor)| == |Slice(content, start, end)| <==> cursor == end || |content| <= cursor
  {
  }

  /** What a sound routine has accepted is a front part of its response. */
  lemma AcceptedIsFront(r: RoutineState)
    requires Ok(r) && !r.job.DirJob?
    ensures r.sb.Accepted() <= Response(r)
    ensures |r.sb.Accepted()| == |Response(r)| <==>
            !r.job.FileJob? || r.job.cursor == r.job.end || |r.job.content| <= r.job.cursor
  {
    if r.job.FileJob? {
      PartOfSlice(r.job.content, r.job.start, r.job.cursor, r.job.end);
    }
    hide Slice, SendState.Accepted;
  }

  /** A routine that has not failed is spent exactly if all of its response is on the wire. */
  lemma SpentIsWhole(r: RoutineState)
    requires Ok(r) && !r.job.DirJob? && r.phase != Fail
    ensures Spent(r) <==> r.sb.peer.wire == Response(r)
  {
    AcceptedIsFront(r);
    assert |r.sb.Accepted()| == |r.sb.peer.wire| + |r.sb.Pending()|;
    assert r.sb.buffer.None? <==> r.sb.Pending() == [];
    hide Response, Slice;
    if r.sb.Pending() == [] {
      assert r.sb.Accepted() == r.sb.peer.wire;
    }
  }

  /**
   Exactly then a response that follows it on the socket, whatever it says, stands behind the whole of
   this one.
   */
  lemma FollowsWhole(r: RoutineState)
    requires Ok(r) && !r.job.DirJob? && r.phase != Fail
    ensures Spent(r) <==> forall next: seq<byte> :: next != [] ==> Response(r) <= r.sb.peer.wire + next
  {
    SpentIsWhole(r);
    AcceptedIsFront(r);
    var (wire, whole) := (r.sb.peer.wire, Response(r));
    assert wire <= r.sb.Accepted() <= whole;
    hide Response, Spent, Ok;
    if wire != whole {
      var other: byte := if whole[|wire|] == 0 then 1 else 0;
      assert (wire + [other])[|wire|] != whole[|wire|];
      assert [other] != [];
    }
  }

  // ---- the invariant of one socket

  /**
   `r`, in front of `rest`, sees a front part of what is on the socket; if it has something left to send
   then all of it, and no other routine is on the socket behind it.
   */
  ghost predicate Fits(r: RoutineState, rest: seq<RoutineState>, fd: nat, wire: seq<byte>) {
    r.Fd() == fd ==> r.sb.peer.wire <= wire && (Spent(r) || (r.sb.peer.wire == wire && fd !in Fds(rest)))
  }

  /** Of the routines on a socket only the last may still have something to send. */
  ghost predicate InOrder(rs: seq<RoutineState>, fd: nat, wire: seq<byte>) {
    rs == [] || (Fits(rs[0], rs[1..], fd, wire) && InOrder(rs[1..], fd, wire))
  }

  lemma {:induction false} InOrderMember(rs: seq<RoutineState>, fd: nat, wire: seq<byte>, r: RoutineState)
    requires InOrder(rs, fd, wire) && r in rs && r.Fd() == fd
    ensures r.sb.peer.wire <= wire && (Spent(r) || r.sb.peer.wire == wire)
  {
    if r != rs[0] {
      InOrderMember(rs[1..], fd, wire, r);
    }
  }

  lemma InOrderCons(r: RoutineState, rs: seq<RoutineState>, fd: nat, wire: seq<byte>)
    ensures InOrder([r] + rs, fd, wire) <==> Fits(r, rs, fd, wire) && InOrder(rs, fd, wire)
  {
    assert ([r] + rs)[1..] == rs;
  }

  lemma {:induction false} InOrderElsewhere(rs: seq<RoutineState>, fd: nat, wire: seq<byte>)
    requires fd !in Fds(rs)
    ensures InOrder(rs, fd, wire)
  {
    if rs != [] {
      assert rs == [rs[0]] + rs[1..];
      FdsCons(rs[0], rs[1..]);
      InOrderElsewhere(rs[1..], fd, wire);
    }
  }

  lemma {:induction false} NothingSent(rs: seq<RoutineState>, marked: set<nat>, fd: nat)
    requires AllSteppable(rs) && fd !in Fds(rs)
    ensures TickSends(rs, marked, fd) == []
    decreases |rs|
  {
    if rs != [] {
      hide Steppable, Step;
      assert rs == [rs[0]] + rs[1..];
      FdsCons(rs[0], rs[1..]);
      var marked' := Remark(marked, rs[0].Fd(), StepIn(rs[0], marked).marked);
      NothingSent(rs[1..], marked', fd);
      if |rs| > 1 {
        assert rs[1..] == [rs[1]] + rs[2..];
        FdsCons(rs[1], rs[2..]);
        NothingSent(rs[2..], marked', fd);
      }
    }
  }

  /** What one step puts on the socket. */
  function StepSends(r: RoutineState, marked: set<nat>, fd: nat): seq<byte>
    requires Steppable(r)
  {
    if r.Fd() == fd then Sent(r, StepIn(r, marked).r) else []
  }

  lemma SpentFits(r: RoutineState, t: RoutineState, rest: seq<RoutineState>, fd: nat, wire: seq<byte>)
    requires Fits(r, rest, fd, wire) && t.Fd() == r.Fd() && t.sb.peer.wire == r.sb.peer.wire && Spent(t)
    ensures Fits(t, rest, fd, wire)
  {
  }

  lemma LiveFits(r: RoutineState, t: RoutineState, rest: seq<RoutineState>, fd: nat, wire: seq<byte>)
    requires Fits(r, rest, fd, wire) && !Spent(r) && r.Fd() == fd && Later(r, t)
    ensures fd !in Fds(rest) && Fits(t, rest, fd, wire + Sent(r, t))
  {
    hide Spent;
    assert t.sb.peer.wire == wire + Sent(r, t);
  }

  lemma StepInOrder(r: RoutineState, marked: set<nat>, fd: nat, wire: seq<byte>, rest: seq<RoutineState>)
    requires Ok(r) && Fits(r, rest, fd, wire) && InOrder(rest, fd, wire)
    ensures Steppable(r)
    ensures var (o, wire') := (StepIn(r, marked), wire + StepSends(r, marked, fd));
      InOrder(rest, fd, wire') && (!o.deleted ==> Fits(o.r, rest, fd, wire'))
  {
    assert Steppable(r);
    var o := StepIn(r, marked);
    assert wire + [] == wire;
    StepKeeps(r, r.Fd() in marked);
    hide Step, Ok, InOrder;
    if Spent(r) {
      SpentStays(r, r.Fd() in marked);
      if !o.deleted {
        hide Spent;
        SpentFits(r, o.r, rest, fd, wire);
      }
    } else if r.Fd() == fd {
      LiveFits(r, o.r, rest, fd, wire);
      InOrderElsewhere(rest, fd, wire + StepSends(r, marked, fd));
    }
  }

  lemma TickSendsOf(rs: seq<RoutineState>, marked: set<nat>, fd: nat)
    requires rs != [] && Tickable(rs)
    ensures Steppable(rs[0]) && AllSteppable(rs) && (|rs| > 1 ==> AllSteppable(rs[2..]))
    ensures var o := StepIn(rs[0], marked);
      var marked' := Remark(marked, rs[0].Fd(), o.marked);
      TickSends(rs, marked, fd) == StepSends(rs[0], marked, fd)
         + if !o.deleted then TickSends(rs[1..], marked', fd)
           else if |rs| == 1 then [] else TickSends(rs[2..], marked', fd)
  {
    hide Steppable, Step;
    assert StepSends(rs[0], marked, fd) + [] == StepSends(rs[0], marked, fd);
  }

  /** The rest of a tick behind a routine that fits. */
  lemma RestFits(r: RoutineState, rest: seq<RoutineState>, marked: set<nat>, fd: nat, wire: seq<byte>)
    requires Tickable(rest) && Fits(r, rest, fd, wire)
    requires InOrder(Tick(rest, marked).routines, fd, wire + TickSends(rest, marked, fd))
    ensures InOrder([r] + Tick(rest, marked).routines, fd, wire + TickSends(rest, marked, fd))
  {
    TickKeeps(rest, marked);
    InOrderCons(r, Tick(rest, marked).routines, fd, wire + TickSends(rest, marked, fd));
    if fd !in Fds(rest) {
      NothingSent(rest, marked, fd);
      assert wire + [] == wire;
    }
    hide Ok, Spent, Tick, TickSends, Steppable, InOrder, Fds;
  }

  /** A tick keeps the order on each socket. */
  lemma {:induction false} TickInOrder(rs: seq<RoutineState>, marked: set<nat>, fd: nat, wire: seq<byte>)
    requires Tickable(rs) && InOrder(rs, fd, wire)
    ensures InOrder(Tick(rs, marked).routines, fd, wire + TickSends(rs, marked, fd))
    decreases |rs|
  {
    hide Ok, Steppable, Step, InOrder, Fits, Spent, TickSends, Tick, StepSends;
    if rs == [] {
      NothingToTick(marked);
      InOrderElsewhere([], fd, wire + TickSends(rs, marked, fd));
    } else {
      var (r, tail) := (rs[0], rs[1..]);
      TickUnfolds(rs, marked);
      TickSendsOf(rs, marked, fd);
      TickableTail(rs);
      assert rs == [r] + tail;
      InOrderCons(r, tail, fd, wire);
      StepInOrder(r, marked, fd, wire, tail);
      var o := StepIn(r, marked);
      var (marked', first) := (Remark(marked, r.Fd(), o.marked), StepSends(r, marked, fd));
      var wire' := wire + first;
      if !o.deleted {
        TickInOrder(tail, marked', fd, wire');
        RestFits(o.r, tail, marked', fd, wire');
        assert wire' + TickSends(tail, marked', fd) == wire + (first + TickSends(tail, marked', fd));
      } else if |rs| > 1 {
        var (next, rest) := (rs[1], rs[2..]);
        assert tail == [next] + rest;
        InOrderCons(next, rest, fd, wire');
        TickInOrder(rest, marked', fd, wire');
        RestFits(next, rest, marked', fd, wire');
        assert wire' + TickSends(rest, marked', fd) == wire + (first + TickSends(rest, marked', fd));
      } else {
        InOrderElsewhere([], fd, wire + TickSends(rs, marked, fd));
      }
    }
  }

  lemma {:induction false} WithoutInOrder(rs: seq<RoutineState>, gone: nat, fd: nat, wire: seq<byte>)
    requires InOrder(rs, fd, wire)
    ensures InOrder(Without(rs, gone), fd, wire)
  {
    if rs != [] && rs[0].Fd() != gone {
      WithoutInOrder(rs[1..], gone, fd, wire);
      WithoutMembers(rs[1..], gone);
      InOrderCons(rs[0], Without(rs[1..], gone), fd, wire);
    }
  }

  ghost predicate AllSpent(rs: seq<RoutineState>, fd: nat) {
    forall x :: x in rs && x.Fd() == fd ==> Spent(x)
  }

  /**
   An arrival that has already put a byte on its socket keeps the order there if and only if every other
   routine on the socket is spent.
   */
  lemma {:induction false} ArrivalInOrder(rs: seq<RoutineState>, r: RoutineState, fd: nat, wire: seq<byte>)
    requires InOrder(rs, fd, wire) && wire <= r.sb.peer.wire && r.Fd() == fd
    ensures AllSpent(rs, fd) ==> InOrder(rs + [r], fd, r.sb.peer.wire)
    ensures InOrder(rs + [r], fd, r.sb.peer.wire) && wire != r.sb.peer.wire ==> AllSpent(rs, fd)
  {
    hide Spent;
    if rs == [] {
      assert [] + [r] == [r];
    } else {
      ArrivalInOrder(rs[1..], r, fd, wire);
      assert (rs + [r])[1..] == rs[1..] + [r] && rs == [rs[0]] + rs[1..];
    }
  }

  /** And so does a response that is sent without a routine. */
  lemma {:induction false} AnswerInOrder(rs: seq<RoutineState>, fd: nat, wire: seq<byte>, sent: seq<byte>)
    requires InOrder(rs, fd, wire) && sent != []
    ensures InOrder(rs, fd, wire + sent) <==> AllSpent(rs, fd)
  {
    hide Spent;
    if rs != [] {
      AnswerInOrder(rs[1..], fd, wire, sent);
      assert rs == [rs[0]] + rs[1..];
    }
  }

  lemma {:induction false} ArrivalElsewhere(rs: seq<RoutineState>, r: RoutineState, fd: nat, wire: seq<byte>)
    requires InOrder(rs, fd, wire) && r.Fd() != fd
    ensures InOrder(rs + [r], fd, wire)
  {
    hide Spent;
    if rs == [] {
      assert [] + [r] == [r];
    } else {
      ArrivalElsewhere(rs[1..], r, fd, wire);
      assert (rs + [r])[1..] == rs[1..] + [r];
      FdsAppend(rs[1..], r);
    }
  }

  lemma FdsAppend(rs: seq<RoutineState>, r: RoutineState)
    ensures Fds(rs + [r]) == Fds(rs) + {r.Fd()}
  {
    assert forall x :: x in rs + [r] <==> x in rs || x == r;
  }

  // ---- every run

  /** A new response on the socket goes behind what is there, and finds only routines that have had their turn. */
  ghost predicate WaitsItsTurn(s: Server, wire: seq<byte>, e: Event, fd: nat) {
    match e
    case Arrive(r) => r.Fd() == fd ==> wire <= r.sb.peer.wire && AllSpent(s.routines, fd)
    case Answer(at, sent) => at == fd && sent != [] ==> AllSpent(s.routines, fd)
    case _ => true
  }

  ghost predicate TakesTurns(s: Server, wire: seq<byte>, events: seq<Event>, fd: nat)
    requires LegalRun(s, events)
    decreases |events|
  {
    events == [] || (WaitsItsTurn(s, wire, events[0], fd)
                     && TakesTurns(Apply(s, events[0]), WireAfter(s, wire, events[0], fd), events[1..], fd))
  }

  lemma ApplyInOrder(s: Server, wire: seq<byte>, e: Event, fd: nat)
    requires Inv(s) && Legal(s, e) && InOrder(s.routines, fd, wire) && WaitsItsTurn(s, wire, e, fd)
    ensures InOrder(Apply(s, e).routines, fd, WireAfter(s, wire, e, fd)) && wire <= WireAfter(s, wire, e, fd)
  {
    hide Ok, Fresh, Step, InOrder, Tick, TickSends, Spent;
    match e
    case TickAll =>
      TickKeeps(s.routines, s.marked);
      TickInOrder(s.routines, s.marked, fd, wire);
    case Ready(fds) =>
    case Arrive(r) =>
      if r.Fd() == fd {
        ArrivalInOrder(s.routines, r, fd, wire);
      } else {
        ArrivalElsewhere(s.routines, r, fd, wire);
      }
    case Answer(at, sent) =>
      assert wire + [] == wire;
      if at == fd && sent != [] {
        AnswerInOrder(s.routines, fd, wire, sent);
      }
    case Hangup(gone) =>
      WithoutInOrder(s.routines, gone, fd, wire);
  }

  /** If the arrivals on a socket take turns, it stays in order, and what it has received only grows. */
  lemma {:induction false} EveryRunInOrder(s: Server, wire: seq<byte>, events: seq<Event>, fd: nat)
    requires Inv(s) && LegalRun(s, events) && InOrder(s.routines, fd, wire) && TakesTurns(s, wire, events, fd)
    ensures InOrder(Run(s, events).routines, fd, Received(s, wire, events, fd))
    ensures wire <= Received(s, wire, events, fd)
    decreases |events|
  {
    hide Inv, Legal, Apply, InOrder, WaitsItsTurn, WireAfter;
    if events != [] {
      ApplyKeeps(s, events[0]);
      ApplyInOrder(s, wire, events[0], fd);
      EveryRunInOrder(Apply(s, events[0]), WireAfter(s, wire, events[0], fd), events[1..], fd);
    }
  }

  /** Running `events` and then `more`. */
  lemma {:induction false} RunOn(s: Server, wire: seq<byte>, events: seq<Event>, more: seq<Event>, fd: nat)
    requires LegalRun(s, events + more) && TakesTurns(s, wire, events + more, fd)
    ensures LegalRun(s, events) && TakesTurns(s, wire, events, fd)
    ensures var (t, sent) := (Run(s, events), Received(s, wire, events, fd));
      LegalRun(t, more) && TakesTurns(t, sent, more, fd)
      && Received(s, wire, events + more, fd) == Received(t, sent, more, fd)
    decreases |events|
  {
    hide Legal, Apply, WaitsItsTurn, WireAfter;
    if events == [] {
      assert events + more == more;
    } else {
      assert (events + more)[1..] == events[1..] + more;
      RunOn(Apply(s, events[0]), WireAfter(s, wire, events[0], fd), events[1..], more, fd);
    }
  }

  /**
   Keep-alive. In any run from an idle server in which the arrivals on a socket take turns, each routine on
   it sees a front part of what the client has received there; all of it, as long as the routine has
   something left to send. Whatever happens later, what it has sent stays where it is.
   */
  lemma EveryClientReceives(wire: seq<byte>, events: seq<Event>, more: seq<Event>, r: RoutineState)
    requires LegalRun(IDLE, events + more) && TakesTurns(IDLE, wire, events + more, r.Fd())
    requires LegalRun(IDLE, events) && r in Run(IDLE, events).routines
    ensures r.sb.peer.wire <= Received(IDLE, wire, events, r.Fd()) <= Received(IDLE, wire, events + more, r.Fd())
    ensures !Spent(r) ==> r.sb.peer.wire == Received(IDLE, wire, events, r.Fd())
  {
    var fd := r.Fd();
    RunOn(IDLE, wire, events, more, fd);
    InOrderElsewhere([], fd, wire);
    EveryRunInOrder(IDLE, wire, events, fd);
    InOrderMember(Run(IDLE, events).routines, fd, Received(IDLE, wire, events, fd), r);
    EveryRunIsSound(IDLE, events);
    EveryRunInOrder(Run(IDLE, events), Received(IDLE, wire, events, fd), more, fd);
  }

  /** And what is sent without a routine is received behind what was there, in one piece and for good. */
  lemma EveryAnswerIsReceived(wire: seq<byte>, events: seq<Event>, sent: seq<byte>, more: seq<Event>, fd: nat)
    requires LegalRun(IDLE, events + ([Answer(fd, sent)] + more))
    requires TakesTurns(IDLE, wire, events + ([Answer(fd, sent)] + more), fd)
    ensures LegalRun(IDLE, events)
    ensures Received(IDLE, wire, events, fd) + sent
         <= Received(IDLE, wire, events + ([Answer(fd, sent)] + more), fd)
  {
    var (answer, rest) := (Answer(fd, sent), [Answer(fd, sent)] + more);
    RunOn(IDLE, wire, events, rest, fd);
    InOrderElsewhere([], fd, wire);
    EveryRunInOrder(IDLE, wire, events, fd);
    EveryRunIsSound(IDLE, events);
    var (s, before) := (Run(IDLE, events), Received(IDLE, wire, events, fd));
    assert rest[0] == answer && rest[1..] == more;
    ApplyKeeps(s, answer);
    ApplyInOrder(s, before, answer, fd);
    EveryRunInOrder(Apply(s, answer), WireAfter(s, before, answer, fd), more, fd);
  }

  /**
   So the client has received, in one piece and for good, the whole response of every file routine that comes
   from handleFile and reaches FINISH: its header and exactly the part that it announced.
   */
  lemma AnnouncedIsReceived(wire: seq<byte>, events: seq<Event>, more: seq<Event>, r: RoutineState)
    requires LegalRun(IDLE, events + more) && TakesTurns(IDLE, wire, events + more, r.Fd())
    requires LegalRun(IDLE, events) && r in Run(IDLE, events).routines && r.job.FileJob? && r.phase == Finish
    requires forall r0 :: Arrive(r0) in events && Later(r0, r) ==>
               exists peer, range, content, texts :: HandledAs(r0, peer, range, content, texts)
    ensures exists r0, peer, range, texts ::
              Arrive(r0) in events && Later(r0, r) && !r0.sb.failed
              && HandledAs(r0, peer, range, r.job.content, texts)
              && Answered(r.sb.peer.wire, peer, range, r.job.content, texts)
    ensures r.sb.peer.wire <= Received(IDLE, wire, events + more, r.Fd())
  {
    EveryClientReceives(wire, events, more, r);
    AnnouncedIsDelivered(events, r);
  }

  // ---- a response that does not wait

  /** A kernel that takes a hundred bytes at a time. */
  const TAKES_ALL: nat -> Answer := (k: nat) => Accepts(100)

  /** A plain response "AB" of which "B" is still queued, and one "C" that came while it was. */
  const FIRST: RoutineState :=
    RoutineState(Phase.Flush, SendState(0, Some(Stream([66], 1)), false, Peer(7, TAKES_ALL, 0, [65])), NoJob, [65, 66])

  const SECOND: RoutineState :=
    RoutineState(Phase.Flush, SendState(0, None, false, Peer(7, TAKES_ALL, 0, [65, 67])), NoJob, [65, 67])

  lemma FirstFlushes()
    ensures FIRST.sb.Valid() && SECOND.sb.Valid()
    ensures FlushOf(FIRST.sb).0.peer.wire == [65, 66]
  {
    var s := FIRST.sb;
    assert Rewound(s) == SendState(0, Some(Stream([66], 0)), false, s.peer);
    assert NextBlock(Rewound(s)) == [66];
    var t := SendBlockOf(Rewound(s));
    assert t == SendState(1, Some(Stream([66], 1)), false, Peer(7, TAKES_ALL, 1, [65, 66]));
    assert NextBlock(t) == [];
  }

  lemma BothSend()
    ensures Fresh(FIRST) && Fresh(SECOND) && AllSteppable([FIRST, SECOND])
    ensures TickSends([FIRST, SECOND], {}, 7) == [66]
  {
    FirstFlushes();
    hide FlushOf;
    var both := [FIRST, SECOND];
    assert both[1..] == [SECOND];
    assert [SECOND][1..] == [];
    assert StepIn(FIRST, {}).r.sb == FlushOf(FIRST.sb).0;
    assert !StepIn(FIRST, {}).deleted && !StepIn(FIRST, {}).marked;
    assert Sent(FIRST, StepIn(FIRST, {}).r) == [66];
    assert StepIn(SECOND, {}) == Outcome(SECOND.(phase := Continue), false, false);
    var none: set<nat> := {};
    assert Remark(none, 7, false) == none;
    assert TickSends([SECOND], none, 7) == [];
    assert TickSends(both, none, 7) == [66] + TickSends([SECOND], none, 7);
  }

  /** Both are legal arrivals, and the client receives "ACB". */
  lemma Interleaved()
    ensures var events := [Arrive(FIRST), Arrive(SECOND), TickAll];
      LegalRun(IDLE, events) && !TakesTurns(IDLE, [], events, 7)
      && Received(IDLE, [], events, 7) == [65, 67, 66]
  {
    BothSend();
    hide Fresh, TickSends, Tick, Steppable;
    var (s1, s2) := (Server([FIRST], {}), Server([FIRST, SECOND], {}));
    var (last, events) := ([TickAll], [Arrive(FIRST), Arrive(SECOND), TickAll]);
    assert [] + [FIRST] == [FIRST] && [FIRST] + [SECOND] == [FIRST, SECOND];
    assert Apply(IDLE, Arrive(FIRST)) == s1 && Apply(s1, Arrive(SECOND)) == s2;
    assert last[1..] == [] && events[1..] == [Arrive(SECOND)] + last && events[1..][1..] == last;
    assert LegalRun(s2, last) && Received(s2, [65, 67], last, 7) == [65, 67] + [66];
    assert LegalRun(s1, events[1..]) && Received(s1, [65], events[1..], 7) == [65, 67, 66];
    assert FIRST in s1.routines && !Spent(FIRST);
  }
}
