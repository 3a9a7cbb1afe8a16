/**
 The routine array as the server keeps it: state words with one TYPE and one STATE bit, an array
 shifted in place on deletion, and the write set of select (src/server/routine.c).
 */
module RoutineArrays {
  import opened Bytes
  import opened SendBuffers
  import opened ChunkWriter
  import opened Routines
  import opened Ticks

  const TYPE_ROUTINE: bv8 := 1
  const TYPE_ROUTINE_DIR: bv8 := 2
  const TYPE_ROUTINE_FILE: bv8 := 4
  const STATE_CONTINUE: bv8 := 8
  const STATE_DEFER: bv8 := 16
  const STATE_FLUSH: bv8 := 32
  const STATE_FINISH: bv8 := 64
  const STATE_FAIL: bv8 := 128

  function TypeBit(job: Job): bv8 {
    match job
    case NoJob => TYPE_ROUTINE
    case DirJob(_, _, _) => TYPE_ROUTINE_DIR
    case FileJob(_, _, _, _) => TYPE_ROUTINE_FILE
  }

  function StateBit(phase: Phase): bv8 {
    match phase
    case Continue => STATE_CONTINUE
    case Defer => STATE_DEFER
    case Flush => STATE_FLUSH
    case Finish => STATE_FINISH
    case Fail => STATE_FAIL
  }

  function PhaseOf(state: bv8): Phase {
    if state & STATE_CONTINUE != 0 then Continue
    else if state & STATE_DEFER != 0 then Defer
    else if state & STATE_FLUSH != 0 then Phase.Flush
    else if state & STATE_FINISH != 0 then Finish
    else Fail
  }

  predicate OneBit(x: bv8) { x != 0 && x & (x - 1) == 0 }

  /** The words as routine.h numbers them. */
  lemma BitsAre()
    ensures TYPE_ROUTINE == 1 && TYPE_ROUTINE_DIR == 2 && TYPE_ROUTINE_FILE == 4
    ensures STATE_CONTINUE == 8 && STATE_DEFER == 16 && STATE_FLUSH == 32 && STATE_FINISH == 64 && STATE_FAIL == 128
  {
  }

  /** A state word has exactly one TYPE and one STATE bit just when some job and phase make it. */
  lemma OneOfEach(state: bv8)
    ensures OneBit(state & 7) && OneBit(state & 0xF8) <==>
      exists job, phase :: state == TypeBit(job) | StateBit(phase)
  {
    if OneBit(state & 7) && OneBit(state & 0xF8) {
      var job := if state & 1 != 0 then NoJob else if state & 2 != 0 then DirJob([], 0, 0) else FileJob([], 0, 0, 0);
      assert state == TypeBit(job) | StateBit(PhaseOf(state));
    }
  }

  lemma BitsOf(job: Job, phase: Phase)
    ensures PhaseOf(TypeBit(job) | StateBit(phase)) == phase
  {
  }

  /** serverDeferredSocketAdd, Remove and Exists on the write set of select. */
  class WriteSet {
    var marked: set<nat>

    method Add(fd: nat)
      modifies this
      ensures marked == old(marked) + {fd}
    {
      marked := marked + {fd};
    }

    method Remove(fd: nat)
      modifies this
      ensures marked == old(marked) - {fd}
    {
      marked := marked - {fd};
    }
  }

  class Routine {
    var state: bv8
    var job: Job
    const socketBuffer: SendBuffer
    ghost const header: seq<byte>

    ghost function Footprint(): set<object> { {this, socketBuffer, socketBuffer.clientSocket} }

    /** The state word as the source's switch reads it, and everything the routine owns. */
    ghost function Model(): RoutineState
      reads Footprint()
    {
      RoutineState(PhaseOf(state), socketBuffer.Model(), job, header)
    }

    ghost predicate Valid()
      reads Footprint()
    {
      state == TypeBit(job) | StateBit(PhaseOf(state)) && socketBuffer.Valid() && Steppable(Model())
    }

    /** RoutineNew, FileRoutineNew and DirectoryRoutineNew */
    constructor (socketBuffer: SendBuffer, job: Job)
      requires socketBuffer.Valid()
      requires match job
               case NoJob => true
               case FileJob(_, cursor, start, end) => cursor == start <= end
               case DirJob(_, at, count) => at == count == 0
      ensures Valid() && Fresh(Model()) && this.socketBuffer == socketBuffer
      ensures Model() == RoutineState(Phase.Flush, socketBuffer.Model(), job, socketBuffer.Model().Accepted())
    {
      this.socketBuffer, this.job := socketBuffer, job;
      header := socketBuffer.Model().Accepted();
      state := TypeBit(job) | STATE_FLUSH;
      new;
      BitsOf(job, Phase.Flush);
    }

    /** FileRoutineContinue; at the end of the range or of the file it reports zero. */
    method FileRoutineContinue() returns (bytesWrite: nat)
      requires Valid() && job.FileJob?
      modifies Footprint()
      ensures var (t, n) := FileContinue(old(Model()));
        bytesWrite == n && socketBuffer.Model() == t.sb && job == t.job
      ensures socketBuffer.Valid()
      ensures state == if FileBlock(old(job)) == [] then (old(state) & !STATE_CONTINUE) | STATE_FLUSH else old(state)
    {
      var currentPosition := job.cursor;
      var data := FileBlock(job);
      if |data| > 0 {
        bytesWrite := socketBuffer.WriteData(data);
        job := job.(cursor := currentPosition + |data|);
        if bytesWrite < |data| {
          job := job.(cursor := currentPosition + bytesWrite);
        }
        assert old(Model()).sb.Valid();
        WriteKeeps(old(Model()).sb, data);
      } else {
        bytesWrite := 0;
        state := (state & !STATE_CONTINUE) | STATE_FLUSH;
      }
    }

    /** DirectoryRoutineContinue */
    method DirectoryRoutineContinue() returns (bytesWrite: nat)
      requires Valid() && job.DirJob?
      modifies Footprint()
      ensures var b := DirBatch(old(Model()).sb, old(job), BATCH, 0);
        bytesWrite == b.written && socketBuffer.Model() == b.sb && job == b.job
      ensures socketBuffer.Valid() && state == old(state) && job.DirJob?
    {
      hide ChunkOf, FlushOf, EndingOf, Closing, SendBuffer.Model;
      var i := 0;
      bytesWrite := 0;
      while i < BATCH
        invariant i <= BATCH && socketBuffer.Valid() && state == old(state)
        invariant job.DirJob? && job.at <= |job.listing|
        invariant DirBatch(socketBuffer.Model(), job, BATCH - i, bytesWrite) == old(DirBatch(Model().sb, job, BATCH, 0))
        decreases |job.listing| - job.at
      {
        if job.at < |job.listing| {
          var entry := job.listing[job.at];
          job := job.(at := job.at + 1);
          if entry.hidden {
            continue;
          }
          if entry.fits {
            var n := BodyWriteChunk(socketBuffer, entry.link);
            bytesWrite := bytesWrite + |entry.link|;
            job := job.(count := job.count + 1);
          }
        } else {
          var n := BodyWriteChunk(socketBuffer, Closing(job.count));
          if n != 0 {
            n := BodyWriteChunkEnding(socketBuffer);
          }
          n := socketBuffer.Flush();
          return 0;
        }
        i := i + 1;
      }
      var n := socketBuffer.Flush();
    }

    /** The state word is one TYPE and one STATE bit, and the buffer is sound. */
    ghost predicate Tidy()
      reads Footprint()
    {
      state == TypeBit(job) | StateBit(PhaseOf(state)) && socketBuffer.Valid()
    }

    /** The DEFER cases of RoutineTick's switch; a marked socket is left alone. */
    method TickDefer(writeSet: WriteSet)
      requires Valid() && PhaseOf(state) == Defer
      modifies Footprint()
      ensures Tidy()
      ensures var o := StepDefer(old(Model()), socketBuffer.clientSocket.fd in writeSet.marked);
        Model() == o.r && !o.deleted
    {
      if socketBuffer.clientSocket.fd in writeSet.marked {
        return;
      }
      if socketBuffer.options & SOC_BUF_ERR_FAIL != 0 {
        state := state | STATE_FAIL;
      } else {
        var sent := socketBuffer.Flush();
        if sent == 0 || socketBuffer.options & SOC_BUF_ERR_FAIL != 0 {
          state := state | STATE_FAIL;
        } else if socketBuffer.options & SOC_BUF_ERR_FULL != 0 {
          return;
        } else {
          state := state | STATE_FLUSH;
        }
      }
      state := state & !STATE_DEFER;
    }

    /** The FLUSH cases. */
    method TickFlush()
      requires Valid() && PhaseOf(state) == Phase.Flush
      modifies Footprint()
      ensures Tidy()
      ensures Model() == StepFlush(old(Model()), false).r
    {
      if socketBuffer.buffer.Some? {
        var sent := socketBuffer.Flush();
        if sent == 0 && socketBuffer.options & SOC_BUF_ERR_FAIL != 0 {
          state := (state | STATE_FAIL) & !STATE_FLUSH;
        }
      } else {
        state := (state | STATE_CONTINUE) & !STATE_FLUSH;
      }
    }

    /** The CONTINUE case of a file; a hard failure falls through to deletion. */
    method TickFile(writeSet: WriteSet) returns (deleted: bool)
      requires Valid() && PhaseOf(state) == Continue && job.FileJob?
      modifies Footprint(), writeSet
      ensures Tidy()
      ensures var o := StepFile(old(Model()), socketBuffer.clientSocket.fd in old(writeSet.marked));
        Model() == o.r && deleted == o.deleted
        && writeSet.marked == Remark(old(writeSet.marked), socketBuffer.clientSocket.fd, o.marked)
    {
      var fd := socketBuffer.clientSocket.fd;
      var written := FileRoutineContinue();
      if written > 0 || socketBuffer.options & SOC_BUF_ERR_FULL != 0 {
        if socketBuffer.buffer.Some? && socketBuffer.buffer.value.pos > SB_DATA_SIZE {
          writeSet.Add(fd);
          state := STATE_DEFER | TYPE_ROUTINE_FILE;
        }
        return false;
      }
      if socketBuffer.options & SOC_BUF_ERR_FAIL != 0 {
        state := STATE_FAIL | TYPE_ROUTINE_FILE;
      } else if socketBuffer.buffer.Some? {
        writeSet.Add(fd);
        state := STATE_DEFER | TYPE_ROUTINE_FILE;
      } else {
        state := STATE_FINISH | TYPE_ROUTINE_FILE;
      }
      if state & STATE_FAIL == 0 {
        return false;
      }
      writeSet.Remove(fd);
      return true;
    }

    /** The switch of RoutineTick; the caller frees and deletes the routine when it says so. */
    method Tick(writeSet: WriteSet) returns (deleted: bool)
      requires Valid()
      modifies Footprint(), writeSet
      ensures Tidy()
      ensures var o := Step(old(Model()), socketBuffer.clientSocket.fd in old(writeSet.marked));
        Model() == o.r && deleted == o.deleted
        && writeSet.marked == Remark(old(writeSet.marked), socketBuffer.clientSocket.fd, o.marked)
    {
      var fd := socketBuffer.clientSocket.fd;
      deleted := false;
      if state & STATE_DEFER != 0 {
        TickDefer(writeSet);
      } else if state & STATE_FLUSH != 0 {
        TickFlush();
      } else if state == STATE_CONTINUE | TYPE_ROUTINE {
        state := (state | STATE_FINISH) & !STATE_CONTINUE;
      } else if state == STATE_CONTINUE | TYPE_ROUTINE_FILE {
        deleted := TickFile(writeSet);
      } else if state == STATE_CONTINUE | TYPE_ROUTINE_DIR {
        var written := DirectoryRoutineContinue();
        if written == 0 {
          writeSet.Remove(fd);
          deleted := true;
        }
      } else {
        writeSet.Remove(fd);
        deleted := true;
      }
    }
  }

  /** No two routines share an object. */
  ghost predicate Apart(rs: seq<Routine>) {
    forall i, j :: 0 <= i < j < |rs| ==> rs[i].Footprint() !! rs[j].Footprint()
  }

  lemma ArrayApart(slots: array<Routine>, r: Routine)
    ensures slots !in r.Footprint()
  {
  }

  /** The objects `rs` are in the states `ms`. */
  ghost predicate InStates(rs: seq<Routine>, ms: seq<RoutineState>)
    reads set r, o | r in rs && o in r.Footprint() :: o
  {
    && |rs| == |ms|
    && (forall i :: 0 <= i < |rs| ==> rs[i].Tidy() && rs[i].Model() == ms[i])
    && Apart(rs)
  }

  lemma ApartDiffer(rs: seq<Routine>, i: nat, j: nat)
    requires Apart(rs) && i < j < |rs|
    ensures rs[i] != rs[j]
  {
    assert rs[i] in rs[i].Footprint();
  }

  lemma DropOne(rs: seq<Routine>, ms: seq<RoutineState>, i: nat)
    requires InStates(rs, ms) && i < |rs|
    ensures InStates(rs[..i] + rs[i + 1..], ms[..i] + ms[i + 1..])
  {
    hide Routine.Model, Routine.Tidy, Routine.Footprint;
  }

  lemma AddOne(rs: seq<Routine>, ms: seq<RoutineState>, r: Routine)
    requires InStates(rs, ms) && r.Tidy()
    requires forall i :: 0 <= i < |rs| ==> rs[i].Footprint() !! r.Footprint()
    ensures InStates(rs + [r], ms + [r.Model()])
  {
    hide Routine.Model, Routine.Tidy, Routine.Footprint;
  }

  /** The rest of a tick, over `todo`, completes what it did to `done`. */
  ghost predicate IsGoal(done: seq<RoutineState>, todo: seq<RoutineState>, marked: set<nat>, goal: Server)
    requires AllSteppable(todo)
  {
    goal == Server(done + Ticks.Tick(todo, marked).routines, Ticks.Tick(todo, marked).marked)
  }

  /** One routine of a tick, as the loop comes to it. */
  lemma GoalUnfolds(done: seq<RoutineState>, todo: seq<RoutineState>, marked: set<nat>, goal: Server)
    requires todo != [] && Tickable(todo) && IsGoal(done, todo, marked, goal)
    ensures Steppable(todo[0])
    ensures var o := StepIn(todo[0], marked);
      var marked' := Remark(marked, todo[0].Fd(), o.marked);
      if !o.deleted then Tickable(todo[1..]) && IsGoal(done + [o.r], todo[1..], marked', goal)
      else if |todo| > 1 then Tickable(todo[2..]) && IsGoal(done + [todo[1]], todo[2..], marked', goal)
      else Tickable([]) && IsGoal(done, [], marked', goal)
  {
    TickUnfolds(todo, marked);
    hide Ticks.Tick, Step, StepIn, AllOk, AllSteppable;
    var o := StepIn(todo[0], marked);
    var marked' := Remark(marked, todo[0].Fd(), o.marked);
    if !o.deleted {
      var rest := Ticks.Tick(todo[1..], marked').routines;
      assert done + ([o.r] + rest) == done + [o.r] + rest;
    } else if |todo| > 1 {
      var rest := Ticks.Tick(todo[2..], marked').routines;
      assert done + ([todo[1]] + rest) == done + [todo[1]] + rest;
    }
  }

  lemma MoveUp<T>(done: seq<T>, todo: seq<T>)
    requires |todo| > 1
    ensures done + todo[1..] == done + [todo[1]] + todo[2..]
  {
    assert todo[1..] == [todo[1]] + todo[2..];
  }

  class RoutineArray {
    var size: nat
    var slots: array<Routine>

    /** The slots in use show `ms`, one routine each, and no two share an object. */
    ghost predicate Shows(ms: seq<RoutineState>)
      reads this, slots, set r, o | r in slots[..] && o in r.Footprint() :: o
    {
      size <= slots.Length && |ms| == size && InStates(slots[..size], ms)
    }

    constructor ()
      ensures Shows([]) && fresh(slots)
    {
      size, slots := 0, new Routine[0];
    }

    /** The array with one slot more, for `routine`, elsewhere in memory. */
    method Grown(routine: Routine) returns (bigger: array<Routine>)
      requires size <= slots.Length
      ensures fresh(bigger) && bigger[..] == slots[..size] + [routine]
    {
      bigger := new Routine[size + 1](_ => routine);
      for i := 0 to size
        invariant forall k :: 0 <= k < i ==> bigger[k] == slots[k]
        invariant bigger[size] == routine
      {
        bigger[i] := slots[i];
      }
    }

    /** RoutineArrayAdd: the array grows by one slot, and may move. */
    method Add(routine: Routine, ghost ms: seq<RoutineState>)
      requires Shows(ms) && routine.Tidy()
      requires forall i :: 0 <= i < size ==> slots[i].Footprint() !! routine.Footprint()
      modifies this
      ensures Shows(ms + [routine.Model()]) && fresh(slots)
    {
      ghost var rs := slots[..size];
      hide InStates;
      var bigger := Grown(routine);
      size, slots := size + 1, bigger;
      AddOne(rs, ms, routine);
      assert slots[..size] == rs + [routine];
    }

    /** RoutineArrayDelIdx: the slots behind move up by one; the array itself stays where it is. */
    method DelIdx(idx: nat)
      requires size <= slots.Length && idx < size
      modifies this`size, slots
      ensures size == old(size) - 1
      ensures slots[..size] == old(slots[..idx] + slots[idx + 1..size])
    {
      var i := idx;
      while i + 1 < size
        invariant idx <= i < size == old(size)
        invariant forall k :: 0 <= k < idx ==> slots[k] == old(slots[k])
        invariant forall k :: idx <= k < i ==> slots[k] == old(slots[k + 1])
        invariant forall k :: i < k < size ==> slots[k] == old(slots[k])
      {
        slots[i] := slots[i + 1];
        i := i + 1;
      }
      size := size - 1;
    }

    /** Deleting a slot leaves every other routine as it is, in the same order. */
    method DelSlot(idx: nat, ghost ms: seq<RoutineState>)
      requires Shows(ms) && idx < size
      modifies this`size, slots
      ensures Shows(ms[..idx] + ms[idx + 1..])
      ensures slots[..size] == old(slots[..idx] + slots[idx + 1..size])
    {
      ghost var left := slots[..idx] + slots[idx + 1..size];
      assert left == slots[..size][..idx] + slots[..size][idx + 1..];
      DropOne(slots[..size], ms, idx);
      forall r | r in left
        ensures slots !in r.Footprint() && this !in r.Footprint()
      {
        ArrayApart(slots, r);
      }
      DelIdx(idx);
    }

    /** RoutineArrayDel: deletes the slot that holds this very routine. */
    method Del(routine: Routine, ghost at: nat, ghost ms: seq<RoutineState>)
      requires Shows(ms) && at < size && slots[at] == routine
      modifies this`size, slots
      ensures Shows(ms[..at] + ms[at + 1..])
      ensures slots[..size] == old(slots[..at] + slots[at + 1..size])
    {
      forall k | 0 <= k < at
        ensures slots[k] != routine
      {
        ApartDiffer(slots[..size], k, at);
      }
      var i := 0;
      while i < size && slots[i] != routine
        invariant i <= at
      {
        i := i + 1;
      }
      DelSlot(i, ms);
    }

    /** RoutineArrayDelSocket: deletes the first slot on that socket. */
    method DelSocket(fd: nat, ghost ms: seq<RoutineState>)
      requires Shows(ms)
      modifies this`size, slots
      ensures Shows(Without(ms, fd))
    {
      var i := 0;
      while i < size && slots[i].socketBuffer.clientSocket.fd != fd
        invariant i <= size
        invariant forall k :: 0 <= k < i ==> ms[k].Fd() != fd
      {
        assert slots[..size][i].Model() == ms[i];
        i := i + 1;
      }
      WithoutAt(ms, fd, i);
      if i < size {
        assert slots[..size][i].Model() == ms[i];
        DelSlot(i, ms);
      }
    }

    /** What the loop of RoutineTick has done when it comes to slot `i`, and what is left of the tick. */
    ghost predicate Ticking(i: nat, done: seq<RoutineState>, todo: seq<RoutineState>, marked: set<nat>, goal: Server)
      reads this, slots, set r, o | r in slots[..] && o in r.Footprint() :: o
    {
      && Shows(done + todo) && |done| == Min(i, size) && i <= size + 1
      && Tickable(todo) && IsGoal(done, todo, marked, goal)
    }

    /** One round of the loop: the routine in slot `i` steps, and is deleted if it has to be. */
    method TickRound(i: nat, writeSet: WriteSet, ghost done: seq<RoutineState>, ghost todo: seq<RoutineState>,
                     ghost goal: Server)
      returns (ghost done': seq<RoutineState>, ghost todo': seq<RoutineState>)
      requires Ticking(i, done, todo, writeSet.marked, goal) && i < size
      modifies this`size, slots, writeSet, set r, o | r in slots[..size] && o in r.Footprint() :: o
      ensures Ticking(i + 1, done', todo', writeSet.marked, goal) && size <= old(size) && slots == old(slots)
      ensures forall r :: r in slots[..size] ==> r in old(slots[..size])
    {
      hide Ticks.Tick, Step, StepIn, AllOk, AllSteppable, InStates, Tickable, IsGoal;
      var routine := slots[i];
      GoalUnfolds(done, todo, writeSet.marked, goal);
      ghost var o := StepIn(todo[0], writeSet.marked);
      var deleted := TickSlot(i, writeSet, done + todo);
      assert (done + todo)[i := o.r] == done + [o.r] + todo[1..];
      if deleted {
        ghost var now := done + [o.r] + todo[1..];
        assert now[..i] + now[i + 1..] == done + todo[1..];
        Del(routine, i, now);
        if i < size {
          assert |todo| > 1;
          MoveUp(done, todo);
          done', todo' := done + [todo[1]], todo[2..];
        } else {
          done', todo' := done, [];
          assert done + todo[1..] == done' + todo';
        }
      } else {
        done', todo' := done + [o.r], todo[1..];
      }
    }

    /** RoutineTick, against the tick of the routines' states. */
    method RoutineTick(writeSet: WriteSet, ghost ms: seq<RoutineState>)
      requires Shows(ms) && Tickable(ms)
      modifies this`size, slots, writeSet, set r, o | r in slots[..size] && o in r.Footprint() :: o
      ensures Shows(Ticks.Tick(ms, old(writeSet.marked)).routines)
      ensures writeSet.marked == Ticks.Tick(ms, old(writeSet.marked)).marked
    {
      ghost var goal := Ticks.Tick(ms, writeSet.marked);
      hide Ticks.Tick, InStates;
      ghost var done: seq<RoutineState>, todo := [], ms;
      ghost var all := slots[..size];
      var i := 0;
      assert done + todo == ms && done + goal.routines == goal.routines;
      while i < size
        invariant slots == old(slots) && size <= slots.Length && forall r :: r in slots[..size] ==> r in all
        invariant Ticking(i, done, todo, writeSet.marked, goal)
        decreases size - i
      {
        done, todo := TickRound(i, writeSet, done, todo, goal);
        i := i + 1;
      }
      NothingToTick(writeSet.marked);
      assert todo == [] && done + [] == done && done + todo == done;
    }

    /** One pass of the loop: the routine in slot `i` steps, and no other is touched. */
    method TickSlot(i: nat, writeSet: WriteSet, ghost ms: seq<RoutineState>) returns (deleted: bool)
      requires Shows(ms) && i < size && Steppable(ms[i])
      modifies writeSet, slots[i].Footprint()
      ensures var o := StepIn(ms[i], old(writeSet.marked));
        && Shows(ms[i := o.r]) && deleted == o.deleted
        && writeSet.marked == Remark(old(writeSet.marked), ms[i].Fd(), o.marked)
    {
      var routine := slots[i];
      assert slots[..size][i].Model() == ms[i];
      assert ms[i].Fd() == routine.socketBuffer.clientSocket.fd;
      hide Step, Steppable, SendBuffer.Valid, SendBuffer.Model;
      ghost var rs := slots[..size];
      forall j | 0 <= j < size && j != i
        ensures rs[j].Footprint() !! routine.Footprint()
      {
      }
      deleted := routine.Tick(writeSet);
      forall j | 0 <= j < size && j != i
        ensures rs[j].Tidy() && rs[j].Model() == ms[j]
      {
      }
    }
  }
}
