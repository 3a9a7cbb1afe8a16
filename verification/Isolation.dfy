/** One tick moves each routine at most once and by its own state alone (src/server/routine.c). */
module Isolation {
  import opened Bytes
  import opened SendBuffers
  import opened Routines
  import opened Ticks

  /** What a tick does to one routine; `Skipped` is the one that moves up into a freed slot. */
  datatype Fate = Moved | Removed | Skipped

  /** Whether a routine is deleted its own state decides, whatever is marked. */
  function Fates(rs: seq<RoutineState>): (fates: seq<Fate>)
    requires AllSteppable(rs)
    ensures |fates| == |rs|
  {
    if rs == [] then []
    else if !Step(rs[0], false).deleted then [Moved] + Fates(rs[1..])
    else if |rs| == 1 then [Removed]
    else [Removed, Skipped] + Fates(rs[2..])
  }

  lemma SameDeletion(r: RoutineState, marked: bool)
    requires Steppable(r)
    ensures Step(r, marked).deleted == Step(r, false).deleted
  {
  }

  /** The outcome in `t` of a routine with that fate; its own mark at the start is all it depends on. */
  ghost predicate Meets(r: RoutineState, marked: set<nat>, t: Server, fate: Fate)
    requires Steppable(r)
  {
    var o := StepIn(r, marked);
    match fate
    case Moved => !o.deleted && o.r in t.routines && (r.Fd() in t.marked <==> o.marked)
    case Removed => o.deleted && r.Fd() !in Fds(t.routines) && r.Fd() !in t.marked
    case Skipped => r in t.routines && (r.Fd() in t.marked <==> r.Fd() in marked)
  }

  /** Routine `i` shares its socket with no other. */
  ghost predicate Alone(rs: seq<RoutineState>, i: nat)
    requires i < |rs|
  {
    forall j :: 0 <= j < |rs| && j != i ==> rs[j].Fd() != rs[i].Fd()
  }

  ghost predicate MeetAll(rs: seq<RoutineState>, marked: set<nat>, t: Server, fates: seq<Fate>)
    requires AllSteppable(rs)
  {
    |fates| == |rs| && forall i :: 0 <= i < |rs| && Alone(rs, i) ==> Meets(rs[i], marked, t, fates[i])
  }

  /** The sockets of the routines that stay, in array order. */
  function Staying(rs: seq<RoutineState>, fates: seq<Fate>): seq<nat>
    requires |fates| == |rs|
  {
    if rs == [] then []
    else (if fates[0] == Removed then [] else [rs[0].Fd()]) + Staying(rs[1..], fates[1..])
  }

  function FdList(rs: seq<RoutineState>): seq<nat> {
    if rs == [] then [] else [rs[0].Fd()] + FdList(rs[1..])
  }

  lemma AloneInFront(r: RoutineState, tail: seq<RoutineState>)
    ensures Alone([r] + tail, 0) <==> r.Fd() !in Fds(tail)
  {
    var all := [r] + tail;
    if r.Fd() !in Fds(tail) {
      forall j | 0 < j < |all|
        ensures all[j].Fd() != r.Fd()
      {
        FdsMember(tail, tail[j - 1]);
      }
    } else {
      var x :| x in tail && x.Fd() == r.Fd();
      var j :| 0 <= j < |tail| && tail[j] == x;
      assert all[j + 1] == x;
    }
  }

  lemma AloneBehind(r: RoutineState, tail: seq<RoutineState>, i: nat)
    requires i < |tail| && Alone([r] + tail, i + 1)
    ensures Alone(tail, i) && tail[i].Fd() != r.Fd()
  {
    var all := [r] + tail;
    assert all[0] == r && all[i + 1] == tail[i];
    forall j | 0 <= j < |tail| && j != i
      ensures tail[j].Fd() != tail[i].Fd()
    {
      assert all[j + 1] == tail[j];
    }
  }

  lemma MoveOne(r: RoutineState, tail: seq<RoutineState>, marked: set<nat>, rest: Server, fates: seq<Fate>)
    requires Steppable(r) && AllSteppable(tail)
    requires var o := StepIn(r, marked); !o.deleted && o.r.Fd() == r.Fd()
    requires var marked' := Remark(marked, r.Fd(), StepIn(r, marked).marked);
      MeetAll(tail, marked', rest, fates) && TickFrame(tail, marked', rest)
    ensures AllSteppable([r] + tail)
    ensures MeetAll([r] + tail, marked, Server([StepIn(r, marked).r] + rest.routines, rest.marked), [Moved] + fates)
  {
    hide Steppable, Step, Alone;
    var o := StepIn(r, marked);
    FdsCons(o.r, rest.routines);
    AloneInFront(r, tail);
    hide Fds;
    var (all, t, f) := ([r] + tail, Server([o.r] + rest.routines, rest.marked), [Moved] + fates);
    forall i | 0 <= i < |all| && Alone(all, i)
      ensures Meets(all[i], marked, t, f[i])
    {
      if i > 0 {
        AloneBehind(r, tail, i - 1);
      }
    }
  }

  lemma SkipOne(r: RoutineState, tail: seq<RoutineState>, marked: set<nat>, rest: Server, fates: seq<Fate>)
    requires Steppable(r) && AllSteppable(tail)
    requires MeetAll(tail, marked, rest, fates) && TickFrame(tail, marked, rest)
    ensures AllSteppable([r] + tail)
    ensures MeetAll([r] + tail, marked, Server([r] + rest.routines, rest.marked), [Skipped] + fates)
  {
    hide Steppable, Step, Alone;
    FdsCons(r, rest.routines);
    AloneInFront(r, tail);
    hide Fds;
    var (all, t, f) := ([r] + tail, Server([r] + rest.routines, rest.marked), [Skipped] + fates);
    forall i | 0 <= i < |all| && Alone(all, i)
      ensures Meets(all[i], marked, t, f[i])
    {
      if i > 0 {
        AloneBehind(r, tail, i - 1);
      }
    }
  }

  lemma RemoveOne(r: RoutineState, tail: seq<RoutineState>, marked: set<nat>, rest: Server, fates: seq<Fate>)
    requires Steppable(r) && AllSteppable(tail) && StepIn(r, marked).deleted
    requires MeetAll(tail, marked - {r.Fd()}, rest, fates) && TickFrame(tail, marked - {r.Fd()}, rest)
    ensures AllSteppable([r] + tail)
    ensures MeetAll([r] + tail, marked, rest, [Removed] + fates)
  {
    hide Steppable, Step, Alone;
    AloneInFront(r, tail);
    hide Fds;
    var (all, f) := ([r] + tail, [Removed] + fates);
    forall i | 0 <= i < |all| && Alone(all, i)
      ensures Meets(all[i], marked, rest, f[i])
    {
      if i > 0 {
        AloneBehind(r, tail, i - 1);
      }
    }
  }

  /**
   Isolation under deletion: every routine that is alone on its socket is moved once, removed, or moves up
   into a freed slot untouched; which one, and with what result, its own state and mark decide.
   */
  lemma {:induction false} TickIsolates(rs: seq<RoutineState>, marked: set<nat>)
    requires Tickable(rs)
    ensures MeetAll(rs, marked, Tick(rs, marked), Fates(rs))
    decreases |rs|
  {
    hide Ok, Steppable, Step, MeetAll;
    if rs == [] {
      NoneToMeet(marked);
    } else {
      var (r, o, tail) := (rs[0], StepIn(rs[0], marked), rs[1..]);
      assert rs == [r] + tail;
      var marked' := Remark(marked, r.Fd(), o.marked);
      TickUnfolds(rs, marked);
      TickableTail(rs);
      StepKeeps(r, r.Fd() in marked);
      SameDeletion(r, r.Fd() in marked);
      hide Fds, TickFrame, Remark;
      if !o.deleted {
        TickIsolates(tail, marked');
        TickKeeps(tail, marked');
        MoveOne(r, tail, marked, Tick(tail, marked'), Fates(tail));
      } else if |rs| > 1 {
        RemoveAndSkip(rs, marked);
      } else {
        NoneToMeet(marked - {r.Fd()});
        EmptyTick(marked - {r.Fd()});
        RemarkOff(marked, r.Fd());
        RemoveOne(r, [], marked, Server([], marked - {r.Fd()}), []);
        assert rs == [r] + [] && Fates(rs) == [Removed] + [];
      }
    }
  }

  lemma NoneToMeet(marked: set<nat>)
    ensures MeetAll([], marked, Server([], marked), [])
  {
  }

  lemma RemarkOff(marked: set<nat>, fd: nat)
    ensures Remark(marked, fd, false) == marked - {fd}
  {
  }

  lemma RemoveAndSkip(rs: seq<RoutineState>, marked: set<nat>)
    requires |rs| > 1 && Tickable(rs) && StepIn(rs[0], marked).deleted
    ensures MeetAll(rs, marked, Tick(rs, marked), Fates(rs))
    decreases |rs|, 0
  {
    hide Ok, Steppable, Step, MeetAll, Fds, TickFrame;
    var (r, tail, next, rest) := (rs[0], rs[1..], rs[1], rs[2..]);
    assert rs == [r] + tail && tail == [next] + rest;
    TickUnfolds(rs, marked);
    TickableTail(rs);
    TickableTail(tail);
    StepKeeps(r, r.Fd() in marked);
    SameDeletion(r, r.Fd() in marked);
    var marked' := marked - {r.Fd()};
    RemarkOff(marked, r.Fd());
    var t := Tick(rest, marked');
    TickIsolates(rest, marked');
    TickKeeps(rest, marked');
    SkipKeeps(tail, marked');
    SkipOne(next, rest, marked', t, Fates(rest));
    RemoveOne(r, tail, marked, Server([next] + t.routines, t.marked), [Skipped] + Fates(rest));
    assert [Removed] + ([Skipped] + Fates(rest)) == Fates(rs);
  }

  ghost predicate Ordered(rs: seq<RoutineState>, fates: seq<Fate>, t: seq<RoutineState>) {
    && |fates| == |rs| && FdList(t) == Staying(rs, fates)
    && (rs != [] ==> fates[0] != Skipped)
    && forall i, j :: 0 <= i && j == i + 1 < |rs| ==> (fates[j] == Skipped <==> fates[i] == Removed)
  }

  lemma OrderMoved(r: RoutineState, rs: seq<RoutineState>, fates: seq<Fate>, r': RoutineState, t: seq<RoutineState>)
    requires Ordered(rs, fates, t) && r'.Fd() == r.Fd()
    ensures Ordered([r] + rs, [Moved] + fates, [r'] + t)
  {
    assert ([r] + rs)[1..] == rs && ([Moved] + fates)[1..] == fates && ([r'] + t)[1..] == t;
  }

  lemma OrderSkipped(r: RoutineState, next: RoutineState, rs: seq<RoutineState>, fates: seq<Fate>, t: seq<RoutineState>)
    requires Ordered(rs, fates, t)
    ensures Ordered([r, next] + rs, [Removed, Skipped] + fates, [next] + t)
  {
    var (all, f) := ([r, next] + rs, [Removed, Skipped] + fates);
    assert all[1..] == [next] + rs && f[1..] == [Skipped] + fates;
    assert ([next] + rs)[1..] == rs && ([Skipped] + fates)[1..] == fates && ([next] + t)[1..] == t;
    assert forall i :: 2 <= i < |all| ==> f[i] == fates[i - 2];
  }

  lemma OrderLast(r: RoutineState)
    ensures Ordered([r], [Removed], [])
  {
    assert [r][1..] == [] && [Removed][1..] == [];
  }

  /**
   Those that stay keep their order, and one is skipped exactly if the one in front of it was removed,
   whatever sockets they share.
   */
  lemma {:induction false} TickKeepsOrder(rs: seq<RoutineState>, marked: set<nat>)
    requires Tickable(rs)
    ensures Ordered(rs, Fates(rs), Tick(rs, marked).routines)
    decreases |rs|
  {
    hide Ok, Steppable, Step, Ordered;
    if rs == [] {
      NothingToTick(marked);
      NoneToOrder();
    } else {
      var (r, o, tail) := (rs[0], StepIn(rs[0], marked), rs[1..]);
      assert rs == [r] + tail;
      TickUnfolds(rs, marked);
      TickableTail(rs);
      StepKeeps(r, r.Fd() in marked);
      SameDeletion(r, r.Fd() in marked);
      var marked' := Remark(marked, r.Fd(), o.marked);
      if !o.deleted {
        TickKeepsOrder(tail, marked');
        OrderMoved(r, tail, Fates(tail), o.r, Tick(tail, marked').routines);
      } else if |rs| > 1 {
        var (next, rest) := (rs[1], rs[2..]);
        assert rs == [r, next] + rest;
        TickKeepsOrder(rest, marked');
        OrderSkipped(r, next, rest, Fates(rest), Tick(rest, marked').routines);
      } else {
        assert rs == [r] && Fates(rs) == [Removed];
        OrderLast(r);
      }
    }
  }

  lemma NoneToOrder()
    ensures Ordered([], [], [])
  {
  }
}
