/** Termination of the server's array of routines, and what one tick may change. */
module Progress {
  import opened Bytes
  import opened SendBuffers
  import opened ChunkWriter
  import opened Routines
  import opened Ticks
  import opened Provenance

  function Rank(phase: Phase): nat {
    match phase
    case Flush => 4
    case Continue => 3
    case Defer => 2
    case _ => 1
  }

  /**
   How many steps a routine has left at most, if every send takes something. A byte of a file counts
   twice while unread and once while queued, so reading one and queueing it is progress.
   */
  function Weight(r: RoutineState): nat
    requires Steppable(r)
  {
    match r.job
    case NoJob => 4 * |r.sb.Pending()| + Rank(r.phase)
    case FileJob(_, cursor, _, end) => 4 * (2 * (end - cursor) + |r.sb.Pending()|) + Rank(r.phase)
    case DirJob(listing, at, _) =>
      if r.phase == Flush then 4 + (|listing| - at) + |r.sb.Pending()|
      else if r.phase == Continue then 3 + (|listing| - at)
      else 1
  }

  lemma FlushFalls(r: RoutineState, marked: bool)
    requires Ok(r) && r.sb.peer.Eager() && (r.phase == Flush || (r.phase == Defer && !marked))
    ensures var o := Step(r, marked); Steppable(o.r) && Weight(o.r) < Weight(r)
  {
    FlushKeeps(r.sb);
    StepFlushKeeps(r, marked);
    hide FlushOf, Follows, Slice, Items, CountItems;
  }

  lemma FileFalls(r: RoutineState, marked: bool)
    requires Ok(r) && r.sb.peer.Eager() && r.phase == Continue && r.job.FileJob?
    ensures var o := Step(r, marked); !o.deleted ==> Steppable(o.r) && Weight(o.r) < Weight(r)
  {
    FileContinueKeeps(r);
    var (t, n) := FileContinue(r);
    QueueGrows(r.sb, t.sb, r.header, Slice(r.job.content, r.job.start, r.job.cursor),
               Slice(r.job.content, r.job.start, t.job.cursor), n);
    hide FileContinue, Slice, SendState.Accepted, SendState.Pending;
  }

  lemma QueueGrows(s: SendState, t: SendState, header: seq<byte>, a: seq<byte>, b: seq<byte>, n: nat)
    requires s.peer.wire <= t.peer.wire && s.Accepted() == header + a && t.Accepted() == header + b && |b| <= |a| + n
    ensures |t.Pending()| <= |s.Pending()| + n
  {
    assert |t.Accepted()| == |t.peer.wire| + |t.Pending()|;
    assert |s.Accepted()| == |s.peer.wire| + |s.Pending()|;
  }

  lemma DirFalls(r: RoutineState, marked: bool)
    requires Ok(r) && r.phase == Continue && r.job.DirJob?
    ensures var o := Step(r, marked); !o.deleted ==> Steppable(o.r) && Weight(o.r) < Weight(r)
  {
    DirBatchKeeps(r.header, r.sb, r.job, BATCH, 0);
    hide DirBatch, SendState.Accepted, Items, CountItems;
  }

  /** Stepping a routine brings it nearer to its end or deletes it, unless it waits and its socket is marked. */
  lemma StepFalls(r: RoutineState, marked: bool)
    requires Ok(r) && r.sb.peer.Eager() && (marked ==> r.phase != Defer)
    ensures var o := Step(r, marked);
      o.deleted || (Ok(o.r) && o.r.sb.peer.Eager() && Weight(o.r) < Weight(r))
  {
    StepKeeps(r, marked);
    assert Later(r, Step(r, marked).r) ==> Step(r, marked).r.sb.peer.Eager();
    hide Ok, Later;
    if r.phase == Flush || r.phase == Defer {
      FlushFalls(r, marked);
    } else if r.phase == Continue && r.job.FileJob? {
      FileFalls(r, marked);
    } else if r.phase == Continue && r.job.DirJob? {
      DirFalls(r, marked);
    }
  }

  function Total(rs: seq<RoutineState>): nat
    requires AllSteppable(rs)
  {
    if rs == [] then 0 else Weight(rs[0]) + Total(rs[1..])
  }

  ghost predicate AllEager(rs: seq<RoutineState>) { forall r :: r in rs ==> r.sb.peer.Eager() }

  ghost predicate Sound(rs: seq<RoutineState>) {
    AllOk(rs) && AllSteppable(rs) && AllEager(rs)
  }

  lemma SoundTail(rs: seq<RoutineState>)
    requires rs != [] && Sound(rs)
    ensures Sound(rs[1..]) && Ok(rs[0]) && Steppable(rs[0]) && rs[0].sb.peer.Eager()
  {
    hide Ok, Steppable;
  }

  /** `t` weighs no more than `rs`, and less if `strictly`. */
  ghost predicate Falls(rs: seq<RoutineState>, strictly: bool, t: seq<RoutineState>) {
    && AllSteppable(rs) && AllSteppable(t) && AllEager(t)
    && Total(t) <= Total(rs) && (strictly ==> Total(t) < Total(rs))
  }

  lemma FallsCons(r: RoutineState, rs: seq<RoutineState>, r': RoutineState, t: seq<RoutineState>)
    requires Steppable(r) && Steppable(r') && r'.sb.peer.Eager() && Weight(r') <= Weight(r) && Falls(rs, false, t)
    ensures Falls([r] + rs, Weight(r') < Weight(r), [r'] + t)
  {
    hide Steppable, Weight;
    assert ([r] + rs)[1..] == rs && ([r'] + t)[1..] == t;
  }

  lemma FallsDrop(r: RoutineState, rs: seq<RoutineState>, t: seq<RoutineState>)
    requires Steppable(r) && Falls(rs, false, t)
    ensures Falls([r] + rs, true, t)
  {
    assert ([r] + rs)[1..] == rs;
  }

  lemma {:induction false} TickFalls(rs: seq<RoutineState>, marked: set<nat>)
    requires Sound(rs)
    ensures Falls(rs, rs != [] && (rs[0].Fd() in marked ==> rs[0].phase != Defer), Tick(rs, marked).routines)
    decreases |rs|
  {
    hide Ok, Steppable, Step, Weight, Falls;
    if rs == [] {
      NothingFalls();
    } else {
      var (r, o, tail) := (rs[0], StepIn(rs[0], marked), rs[1..]);
      var marked' := Remark(marked, r.Fd(), o.marked);
      SoundTail(rs);
      hide Sound;
      assert rs == [r] + tail;
      StepAtMost(r, r.Fd() in marked);
      if !o.deleted {
        TickFalls(tail, marked');
        WeakerFalls(tail, Tick(tail, marked').routines);
        FallsCons(r, tail, o.r, Tick(tail, marked').routines);
        WeakerFalls(rs, [o.r] + Tick(tail, marked').routines);
      } else if |rs| > 1 {
        var (next, rest) := (tail[0], tail[1..]);
        SoundTail(tail);
        assert rest == rs[2..] && tail == [next] + rest;
        TickFalls(rest, marked');
        WeakerFalls(rest, Tick(rest, marked').routines);
        FallsCons(next, rest, next, Tick(rest, marked').routines);
        FallsDrop(r, tail, [next] + Tick(rest, marked').routines);
        WeakerFalls(rs, [next] + Tick(rest, marked').routines);
      } else {
        NothingFalls();
        FallsDrop(r, [], []);
        WeakerFalls(rs, []);
      }
    }
  }

  lemma NothingFalls()
    ensures Falls([], false, [])
  {
  }

  lemma WeakerFalls(rs: seq<RoutineState>, t: seq<RoutineState>)
    ensures Falls(rs, true, t) ==> Falls(rs, false, t)
  {
  }

  lemma StepAtMost(r: RoutineState, marked: bool)
    requires Ok(r) && Steppable(r) && r.sb.peer.Eager()
    ensures var o := Step(r, marked);
      o.deleted || (Steppable(o.r) && o.r.sb.peer.Eager() && Weight(o.r) <= Weight(r)
                    && ((marked ==> r.phase != Defer) ==> Weight(o.r) < Weight(r)))
  {
    if marked ==> r.phase != Defer {
      StepFalls(r, marked);
    }
  }

  /** `n` rounds in which select clears every mark and the array is ticked. */
  function Rounds(rs: seq<RoutineState>, n: nat): seq<RoutineState>
    requires Sound(rs)
    decreases n
  {
    if n == 0 || rs == [] then rs
    else
      RoundKeeps(rs);
      Rounds(Tick(rs, {}).routines, n - 1)
  }

  lemma RoundKeeps(rs: seq<RoutineState>)
    requires Sound(rs) && rs != []
    ensures var t := Tick(rs, {}).routines; Sound(t) && Total(t) < Total(rs)
  {
    hide Ok, Steppable, Step, Tick;
    TickKeeps(rs, {});
    TickFalls(rs, {});
  }

  /**
   Termination: if every send takes at least one byte and marks are cleared between ticks, the array
   of file, directory and plain routines is empty after at most `Total` ticks.
   */
  lemma {:induction false} RunsDry(rs: seq<RoutineState>, n: nat)
    requires Sound(rs) && n >= Total(rs)
    ensures Rounds(rs, n) == []
    decreases n
  {
    hide Ok, Steppable, Step, Tick;
    if rs != [] {
      RoundKeeps(rs);
      RunsDry(Tick(rs, {}).routines, n - 1);
    }
  }

  // ---- what has arrived by then

  ghost predicate Healthy(r: RoutineState) { !r.sb.failed && r.phase != Fail }

  lemma HealthyFlush(r: RoutineState, marked: bool)
    requires Ok(r) && r.sb.peer.Eager() && Healthy(r) && (r.phase == Flush || r.phase == Defer)
    ensures var o := Step(r, marked); !o.deleted && Healthy(o.r)
  {
    FlushKeeps(r.sb);
    hide FlushOf, Slice, Items, CountItems;
  }

  /** With sends that take something a routine goes away only at the end of its work. */
  lemma StaysHealthy(r: RoutineState, marked: bool)
    requires Ok(r) && r.sb.peer.Eager() && Healthy(r)
    ensures var o := Step(r, marked);
      if o.deleted then r.phase == Finish || (r.job.DirJob? && !o.r.sb.failed) else Healthy(o.r)
  {
    if r.phase == Flush || r.phase == Defer {
      HealthyFlush(r, marked);
    } else if r.phase == Continue && r.job.FileJob? {
      FileContinueKeeps(r);
      hide FileContinue;
    } else if r.phase == Continue && r.job.DirJob? {
      DirBatchKeeps(r.header, r.sb, r.job, BATCH, 0);
      hide DirBatch;
    }
  }

  /**
   The routine goes away in its next step and has done all of its work: header and file, or header
   alone, are on the wire, or the send buffer has accepted the page as far as its listing goes.
   */
  ghost predicate Delivered(r: RoutineState) {
    match r.job
    case NoJob => r.phase == Finish && r.sb.peer.wire == r.header
    case FileJob(content, cursor, start, end) =>
      r.phase == Finish && r.sb.peer.wire == r.header + Slice(content, start, end)
    case DirJob(listing, _, _) =>
      Steppable(r) && forall marked :: var o := Step(r, marked);
        o.deleted && (CutShort(Shown(listing)) || o.r.sb.Accepted() == r.header + DirTail(listing))
  }

  lemma EndsDelivered(r: RoutineState, marked: bool)
    requires Ok(r) && Step(r, marked).deleted
    requires r.phase == Finish || (r.job.DirJob? && !Step(r, marked).r.sb.failed)
    ensures Delivered(r)
  {
    match r.job
    case NoJob => PlainDelivers(r);
    case FileJob(content, cursor, start, end) =>
      assert r.sb.peer.wire + [] == r.sb.peer.wire;
      SliceEnds(content, start, cursor, end);
    case DirJob(listing, _, _) =>
      forall other: bool
        ensures Step(r, other).deleted && Step(r, other).r == Step(r, marked).r
      {
      }
      DirectoryDelivers(r, marked);
      hide Step, DirTail, Shown;
  }

  lemma SliceEnds(content: seq<byte>, start: nat, cursor: nat, end: nat)
    requires start <= cursor <= end && (cursor == end || |content| <= cursor)
    ensures Slice(content, start, cursor) == Slice(content, start, end)
  {
  }

  /** One tick leaves a later state of every healthy routine, or the routine had delivered. */
  lemma {:induction false} TickMoves(rs: seq<RoutineState>, marked: set<nat>, r: RoutineState)
    requires Sound(rs) && r in rs && Healthy(r)
    ensures Delivered(r) || exists t :: t in Tick(rs, marked).routines && Later(r, t) && Healthy(t)
    decreases |rs|
  {
    hide Later, Ok, Steppable, Step, Delivered, Healthy, Tick;
    SoundTail(rs);
    var o := StepIn(rs[0], marked);
    var marked' := Remark(marked, rs[0].Fd(), o.marked);
    TickUnfolds(rs, marked);
    assert rs == [rs[0]] + rs[1..];
    if r == rs[0] {
      if o.deleted {
        StaysHealthy(r, r.Fd() in marked);
        EndsDelivered(r, r.Fd() in marked);
      } else {
        StepKeeps(r, r.Fd() in marked);
        StaysHealthy(r, r.Fd() in marked);
        assert o.r in Tick(rs, marked).routines;
      }
    } else if !o.deleted {
      TickMoves(rs[1..], marked', r);
    } else if r == rs[1] {
      LaterSame(r);
    } else {
      SoundTail(rs[1..]);
      assert rs[1..][1..] == rs[2..] && rs[1..] == [rs[1]] + rs[2..];
      TickMoves(rs[2..], marked', r);
    }
  }

  /**
   Total correctness: under the same conditions every routine whose sends have not failed has delivered
   in one of these rounds, whatever else is in the array.
   */
  lemma {:induction false} EveryResponseArrives(rs: seq<RoutineState>, r: RoutineState, n: nat)
    requires Sound(rs) && r in rs && Healthy(r) && n >= Total(rs)
    ensures exists k: nat, t :: k < n && t in Rounds(rs, k) && Later(r, t) && Delivered(t)
    decreases n
  {
    hide Later, Delivered, Healthy, Ok, Steppable, Total, Tick;
    RoundKeeps(rs);
    if Delivered(r) {
      LaterSame(r);
      assert r in Rounds(rs, 0);
    } else {
      TickMoves(rs, {}, r);
      var next := Tick(rs, {}).routines;
      var t :| t in next && Later(r, t) && Healthy(t);
      EveryResponseArrives(next, t, n - 1);
      var k: nat, u :| k < n - 1 && u in Rounds(next, k) && Later(t, u) && Delivered(u);
      LaterTrans(r, t, u);
      assert u in Rounds(rs, k + 1);
    }
  }

  // ---- one routine, whatever the others do

  /** What a tick owes the routine in slot `i` gets less: it comes nearer to its end, or moves up. */
  ghost predicate ComesNearer(r: RoutineState, i: nat, t: seq<RoutineState>, j: nat)
    requires Steppable(r)
  {
    && j <= i && j < |t| && Later(r, t[j]) && Ok(t[j]) && Steppable(t[j]) && Healthy(t[j])
    && t[j].sb.peer.Eager() && Weight(t[j]) + j < Weight(r) + i
  }

  lemma NearerBehind(r: RoutineState, i: nat, t: seq<RoutineState>, j: nat, first: RoutineState, n: nat)
    requires Steppable(r) && ComesNearer(r, i, t, j) && n > 0
    ensures ComesNearer(r, i + n, [first] + t, j + 1)
  {
    hide Ok, Steppable, Later, Healthy, Weight;
    assert ([first] + t)[j + 1] == t[j];
  }

  lemma StepsNearer(r: RoutineState, rest: seq<RoutineState>)
    requires Ok(r) && Steppable(r) && Healthy(r) && r.sb.peer.Eager()
    ensures var o := Step(r, false); if o.deleted then Delivered(r) else ComesNearer(r, 0, [o.r] + rest, 0)
  {
    StepKeeps(r, false);
    StepFalls(r, false);
    StaysHealthy(r, false);
    if Step(r, false).deleted {
      EndsDelivered(r, false);
    }
    hide Step, Later, Ok, Weight, Healthy, Delivered;
  }

  /**
   A routine whose sends take something comes nearer to its end in every tick that finds its socket its
   own and unmarked: it is stepped, or passed over because the one in front of it was deleted.
   */
  lemma {:induction false} TickBringsNearer(rs: seq<RoutineState>, marked: set<nat>, i: nat)
    requires Tickable(rs) && i < |rs| && Healthy(rs[i]) && rs[i].sb.peer.Eager()
    requires rs[i].Fd() !in marked && forall k :: 0 <= k < i ==> rs[k].Fd() != rs[i].Fd()
    ensures Delivered(rs[i]) || exists j: nat :: ComesNearer(rs[i], i, Tick(rs, marked).routines, j)
    decreases |rs|
  {
    hide Ok, Steppable, Step, Delivered, Healthy, Tick, ComesNearer, Later, Weight;
    var (r, o) := (rs[i], StepIn(rs[0], marked));
    var marked' := Remark(marked, rs[0].Fd(), o.marked);
    var t := Tick(rs, marked).routines;
    TickUnfolds(rs, marked);
    TickableTail(rs);
    OneOk(rs, i);
    if i == 0 {
      if o.deleted {
        StepsNearer(r, []);
      } else {
        StepsNearer(r, Tick(rs[1..], marked').routines);
        assert ComesNearer(r, i, t, 0);
      }
    } else if !o.deleted {
      TickBringsNearer(rs[1..], marked', i - 1);
      if !Delivered(r) {
        var rest := Tick(rs[1..], marked').routines;
        var j: nat :| ComesNearer(r, i - 1, rest, j);
        NearerBehind(r, i - 1, rest, j, o.r, 1);
        assert ComesNearer(r, i, t, j + 1);
      }
    } else if i == 1 {
      MovesUp(r, Tick(rs[2..], marked').routines);
      assert ComesNearer(r, i, t, 0);
    } else {
      TickableTail(rs[1..]);
      assert rs[1..][1..] == rs[2..] && rs[2..][i - 2] == r;
      assert forall k :: 0 <= k < i - 2 ==> rs[2..][k] == rs[k + 2];
      TickBringsNearer(rs[2..], marked', i - 2);
      if !Delivered(r) {
        var rest := Tick(rs[2..], marked').routines;
        var j: nat :| ComesNearer(r, i - 2, rest, j);
        NearerBehind(r, i - 2, rest, j, rs[1], 2);
        assert ComesNearer(r, i, t, j + 1);
      }
    }
  }

  lemma OneOk(rs: seq<RoutineState>, i: nat)
    requires Tickable(rs) && i < |rs|
    ensures Ok(rs[i]) && Steppable(rs[i])
  {
    hide Ok, Steppable;
  }

  lemma MovesUp(r: RoutineState, rest: seq<RoutineState>)
    requires Ok(r) && Steppable(r) && Healthy(r) && r.sb.peer.Eager()
    ensures ComesNearer(r, 1, [r] + rest, 0)
  {
    LaterSame(r);
    hide Ok, Steppable, Healthy, Weight, Later;
  }

  /** Select has cleared its mark whenever a tick comes, its socket is its own, and it is not hung up. */
  ghost predicate LeftAlone(s: Server, e: Event, fd: nat) {
    match e
    case TickAll => fd !in s.marked && |On(s.routines, fd)| <= 1
    case Hangup(gone) => gone != fd
    case _ => true
  }

  ghost predicate AlwaysLeftAlone(s: Server, events: seq<Event>, fd: nat)
    requires LegalRun(s, events)
    decreases |events|
  {
    events == [] || (LeftAlone(s, events[0], fd) && AlwaysLeftAlone(Apply(s, events[0]), events[1..], fd))
  }

  function CountTicks(events: seq<Event>): nat {
    if events == [] then 0 else (if events[0].TickAll? then 1 else 0) + CountTicks(events[1..])
  }

  /** At some boundary of the run a later state of `r` has delivered. */
  ghost predicate Delivers(s: Server, events: seq<Event>, r: RoutineState)
    requires LegalRun(s, events)
    decreases |events|
  {
    || (exists t :: t in s.routines && Later(r, t) && Delivered(t))
    || (events != [] && Delivers(Apply(s, events[0]), events[1..], r))
  }

  lemma {:induction false} DeliversLater(s: Server, events: seq<Event>, r: RoutineState, t: RoutineState)
    requires LegalRun(s, events) && Later(r, t) && Delivers(s, events, t)
    ensures Delivers(s, events, r)
    decreases |events|
  {
    hide Later, Delivered, Legal, Apply;
    if u :| u in s.routines && Later(t, u) && Delivered(u) {
      LaterTrans(r, t, u);
    } else {
      DeliversLater(Apply(s, events[0]), events[1..], r, t);
    }
  }

  lemma {:induction false} OnlyOne(rs: seq<RoutineState>, i: nat, k: nat)
    requires k < i < |rs| && |On(rs, rs[i].Fd())| <= 1
    ensures rs[k].Fd() != rs[i].Fd()
  {
    var fd := rs[i].Fd();
    if k > 0 {
      OnlyOne(rs[1..], i - 1, k - 1);
    } else {
      OnMembers(rs[1..], fd);
      assert rs[1..][i - 1] in On(rs[1..], fd);
    }
  }

  lemma {:induction false} WithoutSlot(rs: seq<RoutineState>, gone: nat, i: nat)
    returns (j: nat)
    requires i < |rs| && rs[i].Fd() != gone
    ensures j <= i && j < |Without(rs, gone)| && Without(rs, gone)[j] == rs[i]
  {
    j := i;
    if rs[0].Fd() == gone {
      j := i - 1;
    } else if i > 0 {
      var k := WithoutSlot(rs[1..], gone, i - 1);
      j := k + 1;
    }
  }

  /**
   No starvation: in any run a routine whose own sends take at least a byte and have not failed has
   delivered after as many ticks as its measure and its place in the array say, whatever the routines on
   other sockets do, arrive or fail, as long as it has its socket to itself and select finds that writable.
   */
  lemma {:induction false} NoStarvation(s: Server, events: seq<Event>, i: nat)
    requires Inv(s) && LegalRun(s, events) && i < |s.routines|
    requires var r := s.routines[i];
      Healthy(r) && r.sb.peer.Eager() && AlwaysLeftAlone(s, events, r.Fd()) && Steppable(r)
      && CountTicks(events) >= Weight(r) + i
    ensures Delivers(s, events, s.routines[i])
    decreases |events|
  {
    hide Ok, Steppable, Step, Delivered, Healthy, Tick, Later, Weight, Fresh;
    var r := s.routines[i];
    LaterSame(r);
    WeighsSomething(r);
    if !Delivered(r) {
      var (e, rest) := (events[0], events[1..]);
      var next := Apply(s, e);
      ApplyKeeps(s, e);
      match e {
        case TickAll =>
          forall k | 0 <= k < i
            ensures s.routines[k].Fd() != r.Fd()
          {
            OnlyOne(s.routines, i, k);
          }
          TickBringsNearer(s.routines, s.marked, i);
          var j: nat :| ComesNearer(r, i, next.routines, j);
          SameSocket(r, next.routines[j]);
          NoStarvation(next, rest, j);
          DeliversLater(next, rest, r, next.routines[j]);
        case Hangup(gone) =>
          var j := WithoutSlot(s.routines, gone, i);
          NoStarvation(next, rest, j);
        case _ =>
          assert next.routines[i] == r;
          NoStarvation(next, rest, i);
      }
    }
  }

  lemma SameSocket(r: RoutineState, t: RoutineState)
    requires Later(r, t)
    ensures t.Fd() == r.Fd()
  {
  }

  lemma WeighsSomething(r: RoutineState)
    requires Steppable(r)
    ensures Weight(r) > 0
  {
  }
}
