/**
 A tick of the whole routine array, and every run of the server made of ticks, select steps,
 new connections and hang-ups (src/server/routine.c, src/server/mltiplex/select.c).
 */
module Ticks {
  import opened Bytes
  import opened SendBuffers
  import opened ChunkWriter
  import opened Routines

  /** The routine array in order, and the deferred sockets (the write set of `select`). */
  datatype Server = Server(routines: seq<RoutineState>, marked: set<nat>)

  ghost function Fds(rs: seq<RoutineState>): set<nat> { set r | r in rs :: r.Fd() }

  function Remark(marked: set<nat>, fd: nat, on: bool): set<nat> {
    if on then marked + {fd} else marked - {fd}
  }

  ghost predicate AllSteppable(rs: seq<RoutineState>) { forall r :: r in rs ==> Steppable(r) }

  function StepIn(r: RoutineState, marked: set<nat>): Outcome
    requires Steppable(r)
  {
    Step(r, r.Fd() in marked)
  }

  /**
   RoutineTick. Deleting a routine moves the next one into its slot, and the loop then goes on to
   the slot after: the routine that moved up is not stepped in this tick.
   */
  function Tick(rs: seq<RoutineState>, marked: set<nat>): Server
    requires AllSteppable(rs)
  {
    if rs == [] then Server([], marked)
    else
      var o := StepIn(rs[0], marked);
      var marked' := Remark(marked, rs[0].Fd(), o.marked);
      if !o.deleted then
        var rest := Tick(rs[1..], marked');
        Server([o.r] + rest.routines, rest.marked)
      else if |rs| == 1 then Server([], marked')
      else
        var rest := Tick(rs[2..], marked');
        Server([rs[1]] + rest.routines, rest.marked)
  }

  // ---- the invariant of the array

  ghost predicate AllOk(rs: seq<RoutineState>) { forall r :: r in rs ==> Ok(r) }

  /** No two routines on one socket. Arrivals may break it: see KeepAlive. */
  ghost predicate Distinct(rs: seq<RoutineState>) {
    forall i, j :: 0 <= i < j < |rs| ==> rs[i].Fd() != rs[j].Fd()
  }

  /** Some routine on that socket waits for it. */
  ghost predicate Awaited(rs: seq<RoutineState>, fd: nat) {
    exists r :: r in rs && r.Fd() == fd && r.phase == Defer
  }

  /** Each routine is sound, and a mark only on a socket that some routine waits for. */
  ghost predicate Inv(s: Server) {
    AllOk(s.routines) && forall fd :: fd in s.marked ==> Awaited(s.routines, fd)
  }

  lemma DistinctHead(rs: seq<RoutineState>)
    requires rs != [] && Distinct(rs)
    ensures rs[0].Fd() !in Fds(rs[1..]) && Distinct(rs[1..])
  {
  }

  lemma FdsCons(r: RoutineState, rs: seq<RoutineState>)
    ensures Fds([r] + rs) == {r.Fd()} + Fds(rs)
  {
    assert forall x :: x in [r] + rs <==> x == r || x in rs;
  }

  lemma AwaitedCons(r: RoutineState, rs: seq<RoutineState>, fd: nat)
    ensures Awaited([r] + rs, fd) <==> (r.Fd() == fd && r.phase == Defer) || Awaited(rs, fd)
  {
    assert forall x :: x in [r] + rs <==> x == r || x in rs;
  }

  /** Marks of sockets outside the array are never touched; inside, sets only shrink. */
  ghost predicate TickFrame(rs: seq<RoutineState>, marked: set<nat>, t: Server) {
    && Fds(t.routines) <= Fds(rs)
    && (forall fd :: fd !in Fds(rs) ==> (fd in t.marked <==> fd in marked))
    && (forall fd :: fd in Fds(rs) && fd !in Fds(t.routines) ==> fd !in t.marked)
  }

  /** A mark belongs to a routine that waits, or was there before without one. */
  ghost predicate MarksFrom(rs: seq<RoutineState>, marked: set<nat>, t: Server) {
    forall fd :: fd in t.marked ==> Awaited(t.routines, fd) || (fd in marked && !Awaited(rs, fd))
  }

  ghost predicate TickOk(rs: seq<RoutineState>, marked: set<nat>, t: Server) {
    && AllOk(t.routines) && TickFrame(rs, marked, t) && MarksFrom(rs, marked, t)
    && (Distinct(rs) ==> Distinct(t.routines))
  }

  lemma MarksStepped(r: RoutineState, tail: seq<RoutineState>, marked: set<nat>, o: Outcome, rest: Server)
    requires MarksFrom(tail, Remark(marked, r.Fd(), o.marked), rest) && o.r.Fd() == r.Fd()
    requires o.marked ==> o.r.phase == Defer || (r.Fd() in marked && r.phase != Defer)
    ensures MarksFrom([r] + tail, marked, Server([o.r] + rest.routines, rest.marked))
  {
    forall fd | fd in rest.marked && !Awaited([o.r] + rest.routines, fd)
      ensures fd in marked && !Awaited([r] + tail, fd)
    {
      AwaitedCons(o.r, rest.routines, fd);
      AwaitedCons(r, tail, fd);
    }
  }

  lemma MarksDeleted(r: RoutineState, tail: seq<RoutineState>, marked: set<nat>, rest: Server)
    requires MarksFrom(tail, marked - {r.Fd()}, rest)
    ensures MarksFrom([r] + tail, marked, rest)
  {
    forall fd | fd in rest.marked && !Awaited(rest.routines, fd)
      ensures fd in marked && !Awaited([r] + tail, fd)
    {
      AwaitedCons(r, tail, fd);
    }
  }

  lemma FrameStepped(r: RoutineState, tail: seq<RoutineState>, marked: set<nat>, o: Outcome, rest: Server)
    requires TickFrame(tail, Remark(marked, r.Fd(), o.marked), rest) && o.r.Fd() == r.Fd()
    ensures TickFrame([r] + tail, marked, Server([o.r] + rest.routines, rest.marked))
  {
    FdsCons(r, tail);
    FdsCons(o.r, rest.routines);
    hide Fds;
  }

  lemma FrameDeleted(r: RoutineState, tail: seq<RoutineState>, marked: set<nat>, rest: Server)
    requires TickFrame(tail, marked - {r.Fd()}, rest)
    ensures TickFrame([r] + tail, marked, rest)
  {
    FdsCons(r, tail);
    hide Fds;
  }

  lemma DistinctCons(r: RoutineState, rs: seq<RoutineState>)
    ensures Distinct([r] + rs) <==> r.Fd() !in Fds(rs) && Distinct(rs)
  {
    var all := [r] + rs;
    if Distinct(all) {
      DistinctHead(all);
      assert all[1..] == rs;
    } else {
      var i, j :| 0 <= i < j < |all| && all[i].Fd() == all[j].Fd();
      FdsMember(rs, rs[j - 1]);
    }
  }

  lemma FdsMember(rs: seq<RoutineState>, r: RoutineState)
    requires r in rs
    ensures r.Fd() in Fds(rs)
  {
  }

  lemma Stepped(r: RoutineState, tail: seq<RoutineState>, marked: set<nat>, o: Outcome, rest: Server)
    requires TickOk(tail, Remark(marked, r.Fd(), o.marked), rest) && Ok(o.r) && o.r.Fd() == r.Fd()
    requires o.marked ==> o.r.phase == Defer || (r.Fd() in marked && r.phase != Defer)
    ensures TickOk([r] + tail, marked, Server([o.r] + rest.routines, rest.marked))
  {
    hide Ok;
    FrameStepped(r, tail, marked, o, rest);
    MarksStepped(r, tail, marked, o, rest);
    DistinctCons(r, tail);
    DistinctCons(o.r, rest.routines);
    hide Fds, Distinct, MarksFrom;
    assert forall x :: x in [o.r] + rest.routines <==> x == o.r || x in rest.routines;
  }

  /** The first routine was deleted, and the second, if there is one, moved up unstepped. */
  lemma Deleted(r: RoutineState, tail: seq<RoutineState>, marked: set<nat>, rest: Server)
    requires TickOk(tail, marked - {r.Fd()}, rest)
    ensures TickOk([r] + tail, marked, rest)
  {
    FrameDeleted(r, tail, marked, rest);
    MarksDeleted(r, tail, marked, rest);
    DistinctCons(r, tail);
    hide Fds, Distinct, AllOk, MarksFrom, TickFrame;
  }

  lemma {:induction false} TickKeeps(rs: seq<RoutineState>, marked: set<nat>)
    requires AllOk(rs)
    ensures AllSteppable(rs) && TickOk(rs, marked, Tick(rs, marked))
    decreases |rs|
  {
    if rs != [] {
      assert Ok(rs[0]) && Steppable(rs[0]);
      var (r, tail) := (rs[0], rs[1..]);
      OkSteppable(rs);
      hide Ok, Steppable, Step;
      var o := StepIn(r, marked);
      StepKeeps(r, r.Fd() in marked);
      var marked' := Remark(marked, r.Fd(), o.marked);
      assert rs == [r] + tail;
      hide TickOk;
      if !o.deleted {
        TickKeeps(tail, marked');
        Stepped(r, tail, marked, o, Tick(tail, marked'));
      } else if |rs| > 1 {
        SkipKeeps(tail, marked');
        Deleted(r, tail, marked,
                Server([tail[0]] + Tick(tail[1..], marked').routines, Tick(tail[1..], marked').marked));
        assert tail[1..] == rs[2..];
      } else {
        EmptyTick(marked');
        Deleted(r, tail, marked, Server([], marked'));
      }
    } else {
      EmptyTick(marked);
    }
  }

  lemma OkSteppable(rs: seq<RoutineState>)
    requires AllOk(rs)
    ensures AllSteppable(rs)
  {
  }

  lemma EmptyTick(marked: set<nat>)
    ensures TickOk([], marked, Server([], marked))
  {
  }

  /** A routine that moves up is carried over as it is, with its mark. */
  lemma SkipKeeps(rs: seq<RoutineState>, marked: set<nat>)
    requires rs != [] && AllOk(rs)
    ensures AllSteppable(rs)
    ensures var rest := Tick(rs[1..], marked);
      TickOk(rs, marked, Server([rs[0]] + rest.routines, rest.marked))
    decreases |rs|, 0
  {
    assert Ok(rs[0]);
    OkSteppable(rs);
    hide Ok, Steppable, Step;
    var (r, tail) := (rs[0], rs[1..]);
    assert rs == [r] + tail;
    TickKeeps(tail, marked);
    var o := Outcome(r, false, r.Fd() in marked);
    assert Remark(marked, r.Fd(), o.marked) == marked;
    Stepped(r, tail, marked, o, Tick(tail, marked));
  }

  ghost predicate Tickable(rs: seq<RoutineState>) { AllOk(rs) && AllSteppable(rs) }

  lemma TickableTail(rs: seq<RoutineState>)
    requires rs != [] && Tickable(rs)
    ensures Tickable(rs[1..]) && Ok(rs[0]) && Steppable(rs[0])
  {
    hide Ok, Steppable;
  }

  /** A tick, one routine at a time: what is left of it after the first has stepped. */
  lemma TickUnfolds(rs: seq<RoutineState>, marked: set<nat>)
    requires rs != [] && Tickable(rs)
    ensures Steppable(rs[0]) && AllSteppable(rs) && Tickable(rs[1..])
    ensures var (o, t) := (StepIn(rs[0], marked), Tick(rs, marked));
      var marked' := Remark(marked, rs[0].Fd(), o.marked);
      if !o.deleted then
        t == Server([o.r] + Tick(rs[1..], marked').routines, Tick(rs[1..], marked').marked)
      else if |rs| > 1 then
        Tickable(rs[2..])
        && t == Server([rs[1]] + Tick(rs[2..], marked').routines, Tick(rs[2..], marked').marked)
      else
        Tickable([]) && t == Server([], marked') && Tick([], marked') == t
  {
    hide Ok, Step;
    TickableTail(rs);
    if |rs| > 1 {
      TickableTail(rs[1..]);
      assert rs[1..][1..] == rs[2..];
    }
  }

  lemma NothingToTick(marked: set<nat>)
    ensures Tick([], marked) == Server([], marked)
  {
  }

  // ---- every run of the server

  /**
   `Ready` is select finding sockets writable, `Arrive` a request for whose response a routine is made, on
   any socket; `Answer` one whose response is sent without a routine, as for HEAD, and `sent` what is taken
   of that; `Hangup` a connection that closed.
   */
  datatype Event =
    | TickAll | Ready(fds: set<nat>) | Arrive(r: RoutineState) | Answer(fd: nat, sent: seq<byte>) | Hangup(fd: nat)

  /** What handlePath hands over: a routine in FLUSH that has not sent any of its body. */
  ghost predicate Fresh(r: RoutineState) {
    && r.phase == Flush && r.sb.Valid() && r.header == r.sb.Accepted()
    && match r.job
       case NoJob => true
       case FileJob(_, cursor, start, end) => cursor == start <= end
       case DirJob(_, at, count) => at == count == 0
  }

  /** RoutineArrayDelSocket: only the first routine on the socket goes. */
  function Without(rs: seq<RoutineState>, fd: nat): seq<RoutineState> {
    if rs == [] then []
    else if rs[0].Fd() == fd then rs[1..]
    else [rs[0]] + Without(rs[1..], fd)
  }

  lemma {:induction false} WithoutAt(rs: seq<RoutineState>, fd: nat, i: nat)
    requires i <= |rs| && (forall k :: 0 <= k < i ==> rs[k].Fd() != fd) && (i < |rs| ==> rs[i].Fd() == fd)
    ensures Without(rs, fd) == if i < |rs| then rs[..i] + rs[i + 1..] else rs
  {
    if i > 0 {
      WithoutAt(rs[1..], fd, i - 1);
    }
  }

  ghost predicate Legal(s: Server, e: Event) {
    match e
    case TickAll => AllSteppable(s.routines)
    case Arrive(r) => Fresh(r)
    case _ => true
  }

  function Apply(s: Server, e: Event): Server
    requires Legal(s, e)
  {
    match e
    case TickAll => Tick(s.routines, s.marked)
    case Ready(fds) => s.(marked := s.marked - fds)
    case Arrive(r) => s.(routines := s.routines + [r])
    case Answer(_, _) => s
    case Hangup(fd) => Server(Without(s.routines, fd), s.marked - {fd})
  }

  ghost predicate LegalRun(s: Server, events: seq<Event>)
    decreases |events|
  {
    events == [] || (Legal(s, events[0]) && LegalRun(Apply(s, events[0]), events[1..]))
  }

  function Run(s: Server, events: seq<Event>): Server
    requires LegalRun(s, events)
    decreases |events|
  {
    if events == [] then s else Run(Apply(s, events[0]), events[1..])
  }

  lemma FreshOk(r: RoutineState)
    requires Fresh(r)
    ensures Ok(r)
  {
    assert r.header + [] == r.header;
    if r.job.DirJob? {
      assert r.job.listing[0..] == r.job.listing;
    }
  }

  /** The routines on one socket, in array order. */
  function On(rs: seq<RoutineState>, fd: nat): seq<RoutineState> {
    if rs == [] then [] else (if rs[0].Fd() == fd then [rs[0]] else []) + On(rs[1..], fd)
  }

  lemma {:induction false} OnMembers(rs: seq<RoutineState>, fd: nat)
    ensures forall r :: r in On(rs, fd) <==> r in rs && r.Fd() == fd
  {
    if rs != [] {
      OnMembers(rs[1..], fd);
      assert rs == [rs[0]] + rs[1..];
    }
  }

  lemma OnFds(rs: seq<RoutineState>, fd: nat)
    ensures fd in Fds(rs) <==> On(rs, fd) != []
  {
    OnMembers(rs, fd);
    if On(rs, fd) != [] {
      assert On(rs, fd)[0] in On(rs, fd);
    }
  }

  lemma {:induction false} OnWithout(rs: seq<RoutineState>, fd: nat, other: nat)
    ensures On(Without(rs, fd), other) ==
            if other == fd && On(rs, fd) != [] then On(rs, fd)[1..] else On(rs, other)
  {
    if rs != [] && rs[0].Fd() != fd {
      OnWithout(rs[1..], fd, other);
      assert ([rs[0]] + Without(rs[1..], fd))[1..] == Without(rs[1..], fd);
    }
  }

  lemma {:induction false} DistinctWithout(rs: seq<RoutineState>, fd: nat)
    requires Distinct(rs)
    ensures Distinct(Without(rs, fd))
  {
    if rs != [] {
      DistinctHead(rs);
      if rs[0].Fd() != fd {
        DistinctWithout(rs[1..], fd);
        WithoutMembers(rs[1..], fd);
        DistinctCons(rs[0], Without(rs[1..], fd));
      }
    }
  }

  /** A hang-up takes the first routine off its socket, and frees the socket if it had no more than one. */
  lemma WithoutKeeps(rs: seq<RoutineState>, fd: nat)
    ensures On(Without(rs, fd), fd) == if On(rs, fd) == [] then [] else On(rs, fd)[1..]
    ensures forall other :: other != fd ==> On(Without(rs, fd), other) == On(rs, other)
    ensures fd in Fds(Without(rs, fd)) <==> |On(rs, fd)| > 1
    ensures AllOk(rs) ==> AllOk(Without(rs, fd))
    ensures Distinct(rs) ==> Distinct(Without(rs, fd))
  {
    hide Ok, Fds, On, Without, Distinct;
    WithoutMembers(rs, fd);
    OnFds(Without(rs, fd), fd);
    forall other
      ensures On(Without(rs, fd), other) ==
              if other == fd && On(rs, fd) != [] then On(rs, fd)[1..] else On(rs, other)
    {
      OnWithout(rs, fd, other);
    }
    if Distinct(rs) {
      DistinctWithout(rs, fd);
    }
  }

  lemma {:induction false} WithoutMembers(rs: seq<RoutineState>, fd: nat)
    ensures forall r :: r in Without(rs, fd) ==> r in rs
    ensures forall r :: r in rs && r.Fd() != fd ==> r in Without(rs, fd)
    ensures Fds(Without(rs, fd)) <= Fds(rs)
  {
    if rs != [] && rs[0].Fd() != fd {
      WithoutMembers(rs[1..], fd);
    }
  }

  lemma ApplyKeeps(s: Server, e: Event)
    requires Inv(s) && Legal(s, e)
    ensures Inv(Apply(s, e))
  {
    hide Ok, Fresh, Step;
    match e
    case TickAll =>
      TickKeeps(s.routines, s.marked);
      hide Tick;
    case Ready(fds) =>
    case Arrive(r) =>
      FreshOk(r);
      assert forall x :: x in s.routines + [r] <==> x in s.routines || x == r;
    case Answer(_, _) =>
    case Hangup(fd) =>
      WithoutMembers(s.routines, fd);
  }

  /** Safety over whole runs: the invariant holds at every boundary of every legal run. */
  lemma {:induction false} EveryRunIsSound(s: Server, events: seq<Event>)
    requires Inv(s) && LegalRun(s, events)
    ensures Inv(Run(s, events))
    decreases |events|
  {
    if events != [] {
      ApplyKeeps(s, events[0]);
      EveryRunIsSound(Apply(s, events[0]), events[1..]);
    }
  }

  const IDLE: Server := Server([], {})

  /**
   In any run from an idle server, at any boundary: what a file routine's send buffer has put on its socket
   or queued is its header and the file from `start` to its cursor; once the header has drained the queue
   stays within two blocks; and a routine in FINISH has delivered exactly the requested bytes. Where other
   routines send to the same socket, KeepAlive says what becomes of the order between them.
   */
  lemma EveryFileRoutine(events: seq<Event>, r: RoutineState)
    requires LegalRun(IDLE, events) && r in Run(IDLE, events).routines && r.job.FileJob?
    ensures r.job.start <= r.job.cursor <= r.job.end
    ensures r.sb.peer.wire + r.sb.Pending() == r.header + Slice(r.job.content, r.job.start, r.job.cursor)
    ensures Drained(r) ==> r.sb.Buffered() <= 2 * SB_DATA_SIZE
    ensures r.phase == Finish && r.job.end <= |r.job.content| ==>
      r.sb.peer.wire == r.header + r.job.content[r.job.start..r.job.end] && r.sb.Pending() == []
  {
    EveryRunIsSound(IDLE, events);
    assert Ok(r);
    if r.phase == Finish && r.job.end <= |r.job.content| {
      FileDelivers(r);
    }
  }

  /** A routine without a body has its header on its socket or queued, and in FINISH all of it on its socket. */
  lemma EveryPlainRoutine(events: seq<Event>, r: RoutineState)
    requires LegalRun(IDLE, events) && r in Run(IDLE, events).routines && r.job.NoJob?
    ensures r.sb.peer.wire + r.sb.Pending() == r.header
    ensures r.phase == Finish ==> r.sb.peer.wire == r.header && r.sb.Pending() == []
  {
    EveryRunIsSound(IDLE, events);
    assert Ok(r);
    if r.phase == Finish {
      PlainDelivers(r);
    }
  }

  /** And a directory routine has accepted its header and whole items only, unless a send failed. */
  lemma EveryDirectoryRoutine(events: seq<Event>, r: RoutineState)
    requires LegalRun(IDLE, events) && r in Run(IDLE, events).routines && r.job.DirJob? && !r.sb.failed
    ensures r.job.at <= |r.job.listing|
    ensures r.sb.peer.wire + r.sb.Pending() == r.header + Items(r.job.listing, r.job.at)
  {
    EveryRunIsSound(IDLE, events);
    assert Ok(r);
  }

  /**
   And when it goes away in a run, and no send failed, its buffer has accepted the whole page: its
   items in directory order, the footer and the last chunk, if and only if its listing is not cut short. It
   is on the wire if the socket takes whole blocks.
   */
  lemma EveryDirectoryPage(events: seq<Event>, r: RoutineState, marked: bool)
    requires LegalRun(IDLE, events) && r in Run(IDLE, events).routines && r.job.DirJob?
    requires Steppable(r) && Step(r, marked).deleted && !Step(r, marked).r.sb.failed
    ensures var page := r.header + DirTail(r.job.listing);
      && (Step(r, marked).r.sb.Accepted() == page <==> !CutShort(Shown(r.job.listing)))
      && (r.sb.peer.Roomy() && !CutShort(Shown(r.job.listing)) ==> Step(r, marked).r.sb.peer.wire == page)
  {
    EveryRunIsSound(IDLE, events);
    assert Ok(r);
    DirectoryDelivers(r, marked);
    hide Step, Ok;
  }
}
