/**
 Waiting for a slow client: a routine in DEFER is left alone until select finds its socket writable, and
 then never fails if the socket takes a byte (src/server/routine.c, src/server/mltiplex/select.c).
 */
module Deferral {
  import opened Bytes
  import opened SendBuffers
  import opened ChunkWriter
  import opened Routines
  import opened Ticks
  import opened Provenance
  import opened Progress

  /**
   A deferred routine whose mark select has cleared leaves DEFER in its next step: for FLUSH if its send
   takes something, and for FAIL, with nothing sent, if it is told to try again.
   */
  lemma DeferEnds(r: RoutineState)
    requires Ok(r) && r.phase == Defer && r.sb.peer.Unbroken() && !r.sb.failed
    ensures var o := Step(r, false);
      && !o.deleted && !o.marked && !o.r.sb.failed && o.r.phase == (if r.sb.peer.Takes() then Phase.Flush else Fail)
      && (!r.sb.peer.Takes() ==> o.r.sb.peer.wire == r.sb.peer.wire)
  {
    FlushKeeps(r.sb);
    if !r.sb.peer.Takes() {
      NothingTaken(r.sb);
    }
    hide FlushOf, Follows;
  }

  /** A flush whose first send takes nothing ends there. */
  lemma NothingTaken(s: SendState)
    requires s.Valid() && s.buffer.Some? && !s.peer.Takes()
    ensures var (t, n) := FlushOf(s); n == 0 && t.peer.wire == s.peer.wire
  {
    FlushTurn(Rewound(s), 0);
    assert NextBlock(Rewound(s)) != [];
    assert s.peer.wire + NextBlock(Rewound(s))[..0] == s.peer.wire;
  }

  /** The routine is well, and if select has cleared its mark its next send takes a byte. */
  ghost predicate Well(r: RoutineState, marked: bool) {
    Healthy(r) && r.sb.peer.Unbroken() && (r.phase == Defer && !marked ==> r.sb.peer.Takes())
  }

  lemma WellFlush(r: RoutineState, marked: bool)
    requires Ok(r) && Well(r, marked) && (r.phase == Flush || (r.phase == Defer && !marked))
    ensures var o := Step(r, marked); !o.deleted && Well(o.r, o.marked)
    ensures r.sb.buffer.Some? ==> Step(r, marked).r.phase == Phase.Flush
  {
    FlushKeeps(r.sb);
    hide FlushOf, Slice, Items, CountItems;
  }

  /**
   A step keeps such a routine well, or deletes it because it has delivered. In FLUSH it stays there for as
   long as anything is queued, however often it is told to try again.
   */
  lemma StepStaysWell(r: RoutineState, marked: bool)
    requires Ok(r) && Well(r, marked)
    ensures var o := Step(r, marked); if o.deleted then Delivered(r) else Well(o.r, o.marked)
    ensures r.phase == Flush && r.sb.buffer.Some? ==> Step(r, marked).r.phase == Phase.Flush
  {
    if r.phase == Flush || (r.phase == Defer && !marked) {
      WellFlush(r, marked);
    } else if r.phase == Continue && r.job.FileJob? {
      StepFileKeeps(r, marked);
      FileContinueKeeps(r);
      hide FileContinue;
    } else if r.phase == Continue && r.job.DirJob? {
      DirBatchKeeps(r.header, r.sb, r.job, BATCH, 0);
      if Step(r, marked).deleted {
        EndsDelivered(r, marked);
      }
      hide DirBatch;
    } else if r.phase == Finish {
      EndsDelivered(r, marked);
    }
  }

  // ---- a tick, on a socket that has one routine

  /** What a tick does to a socket with one routine: it is passed over, deleted, or has taken its step. */
  ghost predicate TickedOn(r: RoutineState, marked: set<nat>, t: Server)
    requires Steppable(r)
  {
    var (fd, o) := (r.Fd(), StepIn(r, marked));
    || (On(t.routines, fd) == [r] && (fd in t.marked <==> fd in marked))
    || (o.deleted && On(t.routines, fd) == [] && fd !in t.marked)
    || (!o.deleted && On(t.routines, fd) == [o.r] && (fd in t.marked <==> o.marked))
  }

  lemma OnCons(r: RoutineState, rs: seq<RoutineState>, fd: nat)
    ensures On([r] + rs, fd) == (if r.Fd() == fd then [r] else []) + On(rs, fd)
  {
    assert ([r] + rs)[1..] == rs;
  }

  lemma {:induction false} TickElsewhere(rs: seq<RoutineState>, marked: set<nat>, fd: nat)
    requires Tickable(rs) && On(rs, fd) == []
    ensures var t := Tick(rs, marked); On(t.routines, fd) == [] && (fd in t.marked <==> fd in marked)
  {
    OnFds(rs, fd);
    TickKeeps(rs, marked);
    OnFds(Tick(rs, marked).routines, fd);
    hide Tick, On, Fds;
  }

  lemma {:induction false} TickOn(rs: seq<RoutineState>, marked: set<nat>, r: RoutineState)
    requires Tickable(rs) && On(rs, r.Fd()) == [r]
    ensures Ok(r) && Steppable(r) && TickedOn(r, marked, Tick(rs, marked))
    decreases |rs|
  {
    var (fd, first, tail) := (r.Fd(), rs[0], rs[1..]);
    assert rs == [first] + tail;
    OnCons(first, tail, fd);
    TickUnfolds(rs, marked);
    TickableTail(rs);
    hide Ok, Steppable, Step, Tick, On;
    var o := StepIn(first, marked);
    var marked' := Remark(marked, first.Fd(), o.marked);
    StepKeeps(first, first.Fd() in marked);
    if first.Fd() == fd {
      OnlyHead(first, On(tail, fd), r);
      FirstTicks(rs, marked);
    } else if !o.deleted {
      TickOn(tail, marked', r);
      OnCons(o.r, Tick(tail, marked').routines, fd);
    } else {
      assert |rs| > 1;
      var (next, rest) := (rs[1], rs[2..]);
      assert tail == [next] + rest;
      TickableTail(tail);
      OnCons(next, rest, fd);
      OnCons(next, Tick(rest, marked').routines, fd);
      if next.Fd() == fd {
        OnlyHead(next, On(rest, fd), r);
        TickElsewhere(rest, marked', fd);
      } else {
        TickOn(rest, marked', r);
      }
    }
  }

  /** A routine alone on its socket that a tick takes to DEFER has its socket marked after that tick. */
  lemma TickMarks(rs: seq<RoutineState>, marked: set<nat>, r: RoutineState, t: RoutineState)
    requires Tickable(rs) && On(rs, r.Fd()) == [r] && r.phase != Defer
    requires t in Tick(rs, marked).routines && t.Fd() == r.Fd() && t.phase == Defer
    ensures r.Fd() in Tick(rs, marked).marked
  {
    TickOn(rs, marked, r);
    StepKeeps(r, r.Fd() in marked);
    OnMembers(Tick(rs, marked).routines, r.Fd());
    assert t in On(Tick(rs, marked).routines, r.Fd());
    hide Tick, On, Step, Ok, Steppable;
  }

  lemma OnlyHead<T>(x: T, xs: seq<T>, r: T)
    requires [x] + xs == [r]
    ensures x == r && xs == [] && [x] + [] == [r]
  {
    assert ([x] + xs)[0] == x && |[x] + xs| == 1;
  }

  /** The routine is the first in the array. */
  lemma FirstTicks(rs: seq<RoutineState>, marked: set<nat>)
    requires rs != [] && Tickable(rs) && On(rs[1..], rs[0].Fd()) == []
    ensures Steppable(rs[0]) && TickedOn(rs[0], marked, Tick(rs, marked))
  {
    var (r, tail) := (rs[0], rs[1..]);
    TickUnfolds(rs, marked);
    TickableTail(rs);
    hide Ok, Steppable, Step, Tick;
    var (fd, o) := (r.Fd(), StepIn(r, marked));
    var marked' := Remark(marked, fd, o.marked);
    StepKeeps(r, fd in marked);
    if !o.deleted {
      TickElsewhere(tail, marked', fd);
      OnCons(o.r, Tick(tail, marked').routines, fd);
    } else if |rs| > 1 {
      var (next, rest) := (rs[1], rs[2..]);
      assert tail == [next] + rest;
      TickableTail(tail);
      OnCons(next, rest, fd);
      TickElsewhere(rest, marked', fd);
      OnCons(next, Tick(rest, marked').routines, fd);
    }
  }

  // ---- runs

  /** The event does not concern the socket: it is not found writable, and no one comes or goes there. */
  predicate PassesBy(e: Event, fd: nat) {
    match e
    case Ready(fds) => fd !in fds
    case Arrive(r) => r.Fd() != fd
    case Hangup(gone) => gone != fd
    case _ => true
  }

  /**
   A deferred routine waits: until select finds its socket writable it is not stepped, flushed or unmarked,
   however many ticks come.
   */
  lemma {:induction false} WaitsForReady(s: Server, events: seq<Event>, r: RoutineState)
    requires Inv(s) && LegalRun(s, events) && forall e :: e in events ==> PassesBy(e, r.Fd())
    requires On(s.routines, r.Fd()) == [r] && r.phase == Defer && r.Fd() in s.marked
    ensures On(Run(s, events).routines, r.Fd()) == [r] && r.Fd() in Run(s, events).marked
    decreases |events|
  {
    hide Inv, Apply, On, Legal, PassesBy;
    if events != [] {
      assert events[0] in events;
      ApplyKeeps(s, events[0]);
      WaitsOne(s, events[0], r);
      WaitsForReady(Apply(s, events[0]), events[1..], r);
    }
  }

  lemma WaitsOne(s: Server, e: Event, r: RoutineState)
    requires Inv(s) && Legal(s, e) && PassesBy(e, r.Fd())
    requires On(s.routines, r.Fd()) == [r] && r.phase == Defer && r.Fd() in s.marked
    ensures On(Apply(s, e).routines, r.Fd()) == [r] && r.Fd() in Apply(s, e).marked
  {
    hide Ok, Steppable, Tick, On, Without;
    match e
    case TickAll =>
      InvTickable(s);
      TickOn(s.routines, s.marked, r);
      StepWaits(r);
      hide Step;
    case Arrive(x) => OnArrival(s.routines, x, r.Fd());
    case Hangup(gone) => OnWithout(s.routines, gone, r.Fd());
    case _ =>
  }

  /** And once select has found it writable, the next tick flushes it, or passes over it behind a deletion. */
  lemma ReadyWakes(s: Server, fds: set<nat>, r: RoutineState)
    requires Inv(s) && On(s.routines, r.Fd()) == [r] && r.phase == Defer && r.Fd() in fds
    ensures var ready := Apply(s, Ready(fds));
      && ready.routines == s.routines && Legal(ready, TickAll) && Steppable(r) && !Step(r, false).deleted
      && Step(r, false).r.phase in {Phase.Flush, Fail}
      && var t := Apply(ready, TickAll);
         r.Fd() !in t.marked && (On(t.routines, r.Fd()) == [r] || On(t.routines, r.Fd()) == [Step(r, false).r])
  {
    ApplyKeeps(s, Ready(fds));
    var ready := Apply(s, Ready(fds));
    InvTickable(ready);
    TickOn(ready.routines, ready.marked, r);
    WhenFlushFails(r, false);
    hide Tick, On, Step, Ok, Steppable;
  }

  lemma StepWaits(r: RoutineState)
    requires Steppable(r) && r.phase == Defer
    ensures Step(r, true) == Outcome(r, false, true)
  {
  }

  lemma InvTickable(s: Server)
    requires Inv(s)
    ensures Tickable(s.routines)
  {
    OkSteppable(s.routines);
  }

  lemma {:induction false} OnArrival(rs: seq<RoutineState>, r: RoutineState, fd: nat)
    ensures On(rs + [r], fd) == On(rs, fd) + if r.Fd() == fd then [r] else []
  {
    if rs == [] {
      assert [] + [r] == [r] && [r][1..] == [];
    } else {
      OnArrival(rs[1..], r, fd);
      OnCons(rs[0], rs[1..], fd);
      OnCons(rs[0], rs[1..] + [r], fd);
      hide On;
      assert rs + [r] == [rs[0]] + (rs[1..] + [r]) && rs == [rs[0]] + rs[1..];
    }
  }

  /** All routines on the socket are well. */
  ghost predicate WellOn(s: Server, fd: nat) {
    forall r :: r in s.routines && r.Fd() == fd ==> Well(r, fd in s.marked)
  }

  /**
   No one shares the socket when a tick or a hang-up comes; select finds it writable only if it takes a byte;
   and what arrives there has had no failed send and will have none.
   */
  ghost predicate Fair(s: Server, e: Event, fd: nat) {
    match e
    case TickAll => |On(s.routines, fd)| <= 1
    case Ready(fds) =>
      fd in fds ==> forall r :: r in s.routines && r.Fd() == fd && r.phase == Defer ==> r.sb.peer.Takes()
    case Arrive(r) => r.Fd() == fd ==> !r.sb.failed && r.sb.peer.Unbroken()
    case Hangup(gone) => gone == fd ==> |On(s.routines, fd)| <= 1
    case Answer(_, _) => true
  }

  ghost predicate AlwaysFair(s: Server, events: seq<Event>, fd: nat)
    requires LegalRun(s, events)
    decreases |events|
  {
    events == [] || (Fair(s, events[0], fd) && AlwaysFair(Apply(s, events[0]), events[1..], fd))
  }

  /** A tick leaves the one routine on a socket well, or takes it away because it has delivered. */
  lemma TickStaysWell(rs: seq<RoutineState>, marked: set<nat>, r: RoutineState)
    requires Tickable(rs) && On(rs, r.Fd()) == [r] && Well(r, r.Fd() in marked)
    ensures var t := Tick(rs, marked);
      if On(t.routines, r.Fd()) == [] then Delivered(r) else WellOn(t, r.Fd())
  {
    var t := Tick(rs, marked);
    TickOn(rs, marked, r);
    StepStaysWell(r, r.Fd() in marked);
    OnMembers(t.routines, r.Fd());
    hide Tick, Step, Well, Delivered, On, Ok, Steppable;
  }

  lemma FairStaysWell(s: Server, e: Event, fd: nat)
    requires Inv(s) && Legal(s, e) && WellOn(s, fd) && Fair(s, e, fd)
    ensures WellOn(Apply(s, e), fd)
  {
    hide Ok, Steppable, Step, Tick;
    match e
    case TickAll =>
      InvTickable(s);
      OnMembers(s.routines, fd);
      OnMembers(Apply(s, e).routines, fd);
      hide On, Healthy;
      if On(s.routines, fd) == [] {
        TickElsewhere(s.routines, s.marked, fd);
      } else {
        var r := On(s.routines, fd)[0];
        assert On(s.routines, fd) == [r] && r in On(s.routines, fd);
        TickStaysWell(s.routines, s.marked, r);
      }
    case Ready(fds) =>
    case Arrive(r) =>
      hide Inv;
      assert forall x :: x in s.routines + [r] <==> x in s.routines || x == r;
    case Answer(_, _) =>
    case Hangup(gone) =>
      WithoutMembers(s.routines, gone);
      if gone == fd {
        WithoutKeeps(s.routines, fd);
        OnMembers(Apply(s, e).routines, fd);
        hide On;
      }
  }

  /**
   Deferral is safe: in any run from an idle server in which no send on a socket breaks and select finds it
   writable only if it takes a byte, no routine there ever fails, however often the kernel says to try again.
   */
  lemma NeverFails(events: seq<Event>, r: RoutineState)
    requires LegalRun(IDLE, events) && AlwaysFair(IDLE, events, r.Fd()) && r in Run(IDLE, events).routines
    ensures r.phase != Fail && !r.sb.failed
  {
    EveryRunStaysWell(IDLE, events, r.Fd());
  }

  lemma {:induction false} EveryRunStaysWell(s: Server, events: seq<Event>, fd: nat)
    requires Inv(s) && LegalRun(s, events) && WellOn(s, fd) && AlwaysFair(s, events, fd)
    ensures WellOn(Run(s, events), fd)
    decreases |events|
  {
    hide Inv, Legal, Apply, WellOn, Fair;
    if events != [] {
      ApplyKeeps(s, events[0]);
      FairStaysWell(s, events[0], fd);
      EveryRunStaysWell(Apply(s, events[0]), events[1..], fd);
    }
  }
}
