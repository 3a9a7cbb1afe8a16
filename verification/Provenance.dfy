/** Where a routine comes from: in every run each one is a later state of one that arrived. */
module Provenance {
  import opened Bytes
  import opened SendBuffers
  import opened Routines
  import opened Ticks

  lemma LaterSame(r: RoutineState)
    ensures Later(r, r)
  {
  }

  lemma LaterTrans(a: RoutineState, b: RoutineState, c: RoutineState)
    requires Later(a, b) && Later(b, c)
    ensures Later(a, c)
  {
  }

  /** Every routine that a tick leaves is a later state of one that was there before. */
  lemma {:induction false} TickDescends(rs: seq<RoutineState>, marked: set<nat>, t: RoutineState)
    requires Tickable(rs) && t in Tick(rs, marked).routines
    ensures exists r :: r in rs && Later(r, t)
    decreases |rs|
  {
    hide Later, Ok, Step, Tick;
    if rs == [] {
      NothingToTick(marked);
    } else {
      var o := StepIn(rs[0], marked);
      var marked' := Remark(marked, rs[0].Fd(), o.marked);
      TickUnfolds(rs, marked);
      TickableTail(rs);
      StepKeeps(rs[0], rs[0].Fd() in marked);
      hide Tickable;
      if !o.deleted {
        if t in Tick(rs[1..], marked').routines {
          TickDescends(rs[1..], marked', t);
        }
      } else if |rs| > 1 {
        LaterSame(rs[1]);
        if t in Tick(rs[2..], marked').routines {
          TickDescends(rs[2..], marked', t);
        }
      }
    }
  }

  ghost predicate ComesFrom(r0: RoutineState, s: Server, events: seq<Event>) {
    r0 in s.routines || Arrive(r0) in events
  }

  lemma ApplyDescends(s: Server, e: Event, t: RoutineState)
    requires Inv(s) && Legal(s, e) && t in Apply(s, e).routines
    ensures exists r :: ComesFrom(r, s, [e]) && Later(r, t)
  {
    hide Later, Ok, Fresh, Step, Tick;
    LaterSame(t);
    match e
    case TickAll =>
      TickKeeps(s.routines, s.marked);
      TickDescends(s.routines, s.marked, t);
      var r :| r in s.routines && Later(r, t);
      assert ComesFrom(r, s, [e]);
    case Ready(fds) => assert ComesFrom(t, s, [e]);
    case Arrive(r) => assert ComesFrom(t, s, [e]);
    case Answer(_, _) => assert ComesFrom(t, s, [e]);
    case Hangup(fd) =>
      WithoutMembers(s.routines, fd);
      assert ComesFrom(t, s, [e]);
  }

  /** In every run each routine is a later state of one that was there at the start or arrived since. */
  lemma {:induction false} EveryRoutineDescends(s: Server, events: seq<Event>, t: RoutineState)
    requires Inv(s) && LegalRun(s, events) && t in Run(s, events).routines
    ensures exists r :: ComesFrom(r, s, events) && Later(r, t)
    decreases |events|
  {
    hide Later, Inv, Apply, Legal;
    if events == [] {
      LaterSame(t);
      assert ComesFrom(t, s, events);
    } else {
      var (e, rest) := (events[0], events[1..]);
      ApplyKeeps(s, e);
      EveryRoutineDescends(Apply(s, e), rest, t);
      var r1 :| ComesFrom(r1, Apply(s, e), rest) && Later(r1, t);
      if r1 in Apply(s, e).routines {
        ApplyDescends(s, e, r1);
        var r :| ComesFrom(r, s, [e]) && Later(r, r1);
        LaterTrans(r, r1, t);
        assert ComesFrom(r, s, events);
      } else {
        assert ComesFrom(r1, s, events);
      }
    }
  }
}
