/**
 The server's routines as values (src/server/routine.c): each is a small state machine that owns
 a send buffer and a file, a directory or nothing, and is moved one step at a time by a tick.
 */
module Routines {
  import opened Bytes
  import opened SendBuffers
  import opened ChunkWriter

  datatype Phase = Continue | Defer | Flush | Finish | Fail

  /** A directory entry; `fits` says that its path fits the path buffer, `link` is its list item. */
  datatype Entry = Entry(hidden: bool, fits: bool, link: cstring)

  datatype Job =
    | NoJob
    | FileJob(content: seq<byte>, cursor: nat, start: nat, end: nat)
    | DirJob(listing: seq<Entry>, at: nat, count: nat)

  /** `header` remembers what the send buffer had accepted before the routine was made. */
  datatype RoutineState = RoutineState(phase: Phase, sb: SendState, job: Job, header: seq<byte>)
  {
    function Fd(): nat { sb.peer.fd }
  }

  /** What one step does: the routine afterwards, whether it was deleted, and its deferred mark. */
  datatype Outcome = Outcome(r: RoutineState, deleted: bool, marked: bool)

  const BATCH: nat := 10
  const EMPTY_ITEM: cstring := Ascii("\t\t\t<LI>Empty Directory</LI>\n")
  const LIST_END: cstring := Ascii("\t\t</UL>\n")
  const FOOTER: cstring := Ascii("\t</BODY>\n</HTML>\n")

  // ---- FileRoutineContinue

  function FileBlock(job: Job): seq<byte>
    requires job.FileJob? && job.cursor <= job.end
  {
    Slice(job.content, job.cursor, job.cursor + Min(job.end - job.cursor, SB_DATA_SIZE))
  }

  function FileContinue(r: RoutineState): (RoutineState, nat)
    requires r.job.FileJob? && r.job.cursor <= r.job.end
  {
    var data := FileBlock(r.job);
    if data == [] then (r, 0)
    else
      var (sb, n) := WriteOf(r.sb, data);
      (r.(sb := sb, job := r.job.(cursor := r.job.cursor + n)), n)
  }

  // ---- DirectoryRoutineContinue

  function Closing(count: nat): cstring {
    (if count == 0 then EMPTY_ITEM else []) + LIST_END + FOOTER
  }

  function DirEnd(sb: SendState, count: nat): SendState
    requires sb.Valid()
  {
    var (sb1, n) := ChunkOf(sb, Closing(count));
    ChunkKeeps(sb, Closing(count));
    EndingKeeps(sb1);
    var sb2 := if n > 0 then EndingOf(sb1) else sb1;
    FlushOf(sb2).0
  }

  /** After a call: the bytes it reports, and whether it ran off the end of the listing. */
  datatype Batch = Batch(sb: SendState, job: Job, written: nat, ended: bool)

  /** The loop of DirectoryRoutineContinue with `left` turns to go; a hidden entry costs no turn. */
  function DirBatch(sb: SendState, job: Job, left: nat, written: nat): Batch
    requires sb.Valid() && job.DirJob? && job.at <= |job.listing|
    decreases |job.listing| - job.at
  {
    if left == 0 then Batch(FlushOf(sb).0, job, written, false)
    else if job.at == |job.listing| then Batch(DirEnd(sb, job.count), job, 0, true)
    else
      var e := job.listing[job.at];
      var next := job.(at := job.at + 1);
      if e.hidden then DirBatch(sb, next, left, written)
      else if e.fits then
        ChunkKeeps(sb, e.link);
        DirBatch(ChunkOf(sb, e.link).0, next.(count := job.count + 1), left - 1, written + |e.link|)
      else DirBatch(sb, next, left - 1, written)
  }

  // ---- RoutineTick, one routine

  ghost predicate Steppable(r: RoutineState) {
    && r.sb.Valid()
    && (r.job.FileJob? ==> r.job.cursor <= r.job.end)
    && (r.job.DirJob? ==> r.job.at <= |r.job.listing|)
  }

  function StepDefer(r: RoutineState, marked: bool): Outcome
    requires Steppable(r)
  {
    if marked then Outcome(r, false, true)
    else if r.sb.failed then Outcome(r.(phase := Fail), false, false)
    else
      var (sb, sent) := FlushOf(r.sb);
      Outcome(r.(sb := sb, phase := if sent == 0 || sb.failed then Fail else Flush), false, false)
  }

  function StepFlush(r: RoutineState, marked: bool): Outcome
    requires Steppable(r)
  {
    if r.sb.buffer.None? then Outcome(r.(phase := Continue), false, marked)
    else
      var (sb, sent) := FlushOf(r.sb);
      Outcome(r.(sb := sb, phase := if sent == 0 && sb.failed then Fail else Flush), false, marked)
  }

  function StepFile(r: RoutineState, marked: bool): Outcome
    requires Steppable(r) && r.job.FileJob?
  {
    var (r', n) := FileContinue(r);
    if n > 0 then
      if r'.sb.buffer.Some? && r'.sb.buffer.value.pos > SB_DATA_SIZE
      then Outcome(r'.(phase := Defer), false, true)
      else Outcome(r', false, marked)
    else if r'.sb.failed then Outcome(r'.(phase := Fail), true, false)
    else if r'.sb.buffer.Some? then Outcome(r'.(phase := Defer), false, true)
    else Outcome(r'.(phase := Finish), false, marked)
  }

  function StepDir(r: RoutineState, marked: bool): Outcome
    requires Steppable(r) && r.job.DirJob?
  {
    var b := DirBatch(r.sb, r.job, BATCH, 0);
    Outcome(r.(sb := b.sb, job := b.job), b.written == 0, b.written != 0 && marked)
  }

  function Step(r: RoutineState, marked: bool): Outcome
    requires Steppable(r)
  {
    match r.phase
    case Defer => StepDefer(r, marked)
    case Flush => StepFlush(r, marked)
    case Continue =>
      (match r.job
       case NoJob => Outcome(r.(phase := Finish), false, marked)
       case FileJob(_, _, _, _) => StepFile(r, marked)
       case DirJob(_, _, _) => StepDir(r, marked))
    case _ => Outcome(r, true, false)
  }

  // ---- what holds of every routine at every tick boundary

  /** The list items that the first `at` entries of a directory call for, each in its own chunk. */
  function Items(listing: seq<Entry>, at: nat): seq<byte>
    requires at <= |listing|
  {
    if at == 0 then []
    else
      var e := listing[at - 1];
      Items(listing, at - 1) + (if e.hidden || !e.fits then [] else Chunk(e.link))
  }

  function CountItems(listing: seq<Entry>, at: nat): nat
    requires at <= |listing|
  {
    if at == 0 then 0
    else CountItems(listing, at - 1) + (if listing[at - 1].hidden || !listing[at - 1].fits then 0 else 1)
  }

  /** The entries that are not hidden: each takes one of the ten turns of a batch. */
  function Shown(listing: seq<Entry>): seq<Entry> {
    if listing == [] then [] else (if listing[0].hidden then [] else [listing[0]]) + Shown(listing[1..])
  }

  /** None of these is listed. */
  predicate AllSkipped(entries: seq<Entry>) {
    forall e :: e in entries ==> !e.fits || e.link == []
  }

  /** In groups of ten, some whole group of the entries shown has none that is listed. */
  predicate CutShort(shown: seq<Entry>) {
    |shown| >= BATCH && (AllSkipped(shown[..BATCH]) || CutShort(shown[BATCH..]))
  }

  /** In groups of ten from the first on, as many as there are. */
  lemma {:induction false} CutShortIs(shown: seq<Entry>)
    ensures CutShort(shown) <==>
      exists g: nat :: 10 * g + 10 <= |shown| && AllSkipped(shown[10 * g..10 * g + 10])
    decreases |shown|
  {
    hide AllSkipped;
    if |shown| >= 10 {
      var rest := shown[10..];
      CutShortIs(rest);
      assert shown[10 * 0..10 * 0 + 10] == shown[..10];
      forall g: nat | 10 * g + 10 <= |rest|
        ensures rest[10 * g..10 * g + 10] == shown[10 * (g + 1)..10 * (g + 1) + 10]
      {
      }
      if g: nat :| 10 * g + 10 <= |shown| && AllSkipped(shown[10 * g..10 * g + 10]) {
        if g > 0 {
          assert rest[10 * (g - 1)..10 * (g - 1) + 10] == shown[10 * g..10 * g + 10];
        }
      }
      if g: nat :| 10 * g + 10 <= |rest| && AllSkipped(rest[10 * g..10 * g + 10]) {
        assert AllSkipped(shown[10 * (g + 1)..10 * (g + 1) + 10]);
      }
    }
  }

  lemma {:induction false} CountsListed(listing: seq<Entry>, at: nat)
    requires at <= |listing|
    ensures CountItems(listing, at) == 0 <==> forall i :: 0 <= i < at ==> listing[i].hidden || !listing[i].fits
  {
    if at > 0 {
      CountsListed(listing, at - 1);
    }
  }

  /** A page ends with its list and its body, and with a word for an empty directory exactly if nothing is listed. */
  lemma PageEnds(listing: seq<Entry>)
    ensures var empty := forall i :: 0 <= i < |listing| ==> listing[i].hidden || !listing[i].fits;
      Closing(CountItems(listing, |listing|)) ==
      (if empty then Ascii("\t\t\t<LI>Empty Directory</LI>\n") else [])
      + Ascii("\t\t</UL>\n") + Ascii("\t</BODY>\n</HTML>\n")
  {
    CountsListed(listing, |listing|);
  }

  /** The body of a file routine has begun: its header has left the memory stream. */
  predicate Drained(r: RoutineState)
    requires r.job.FileJob?
  {
    r.job.cursor > r.job.start || r.phase == Continue || r.phase == Defer || r.phase == Finish
  }

  ghost predicate FileOk(r: RoutineState)
    requires r.job.FileJob?
  {
    var FileJob(content, cursor, start, end) := r.job;
    && start <= cursor <= end
    && r.sb.Accepted() == r.header + Slice(content, start, cursor)
    && (r.phase == Finish ==> r.sb.buffer.None? && !r.sb.failed && (cursor == end || |content| <= cursor))
    && (r.phase == Defer || (r.phase == Continue && r.sb.buffer.Some?) ==> cursor > start)
    && (r.phase == Continue ==> r.sb.Buffered() <= SB_DATA_SIZE)
    && (Drained(r) ==> r.sb.Buffered() <= 2 * SB_DATA_SIZE)
  }

  ghost predicate DirOk(r: RoutineState)
    requires r.job.DirJob?
  {
    var DirJob(listing, at, count) := r.job;
    && at <= |listing| && count == CountItems(listing, at)
    && (r.sb.failed || r.sb.Accepted() == r.header + Items(listing, at))
    && r.phase != Finish && (r.phase == Fail ==> r.sb.failed)
    && (CutShort(Shown(listing[at..])) <==> CutShort(Shown(listing)))
  }

  /** A routine without a body: its header, and once it has left FLUSH nothing of it is queued. */
  ghost predicate PlainOk(r: RoutineState) {
    r.sb.Accepted() == r.header && (r.phase == Continue || r.phase == Finish ==> r.sb.buffer.None?)
  }

  ghost predicate Ok(r: RoutineState) {
    && r.sb.Valid()
    && (r.phase == Defer ==> r.job.FileJob? && r.sb.buffer.Some?)
    && match r.job
       case NoJob => PlainOk(r)
       case FileJob(_, _, _, _) => FileOk(r)
       case DirJob(_, _, _) => DirOk(r)
  }

  /** `t` is the same routine later on: same socket, same work; the wire has only grown, and a failure stays. */
  ghost predicate Later(r: RoutineState, t: RoutineState) {
    && t.Fd() == r.Fd() && t.header == r.header && r.sb.peer.wire <= t.sb.peer.wire
    && t.sb.peer.kernel == r.sb.peer.kernel && r.sb.peer.calls <= t.sb.peer.calls
    && (r.sb.failed ==> t.sb.failed)
    && match r.job
       case NoJob => t.job.NoJob?
       case FileJob(content, _, start, end) =>
         t.job.FileJob? && t.job.content == content && t.job.start == start && t.job.end == end
       case DirJob(listing, at, _) => t.job.DirJob? && t.job.listing == listing && at <= t.job.at
  }

  lemma FileBlockIs(job: Job, header: seq<byte>, n: nat)
    requires job.FileJob? && job.start <= job.cursor <= job.end && n <= |FileBlock(job)|
    ensures |FileBlock(job)| <= job.end - job.cursor && |FileBlock(job)| <= SB_DATA_SIZE
    ensures FileBlock(job) == [] <==> job.cursor == job.end || |job.content| <= job.cursor
    ensures |FileBlock(job)| == NextRead(job)
    ensures header + Slice(job.content, job.start, job.cursor) + FileBlock(job)[..n]
         == header + Slice(job.content, job.start, job.cursor + n)
  {
    var FileJob(content, cursor, start, end) := job;
    if n > 0 {
      assert FileBlock(job)[..n] == Slice(content, cursor, cursor + n);
    }
    SliceGrows(content, start, cursor, cursor + n);
    var front := Slice(content, start, cursor);
    assert header + front + Slice(content, cursor, cursor + n) == header + (front + Slice(content, cursor, cursor + n));
  }

  /** How much a read gives: a block, or what is left of the range or of the file. */
  function NextRead(job: Job): nat
    requires job.FileJob? && job.cursor <= job.end
  {
    Min(Min(job.end - job.cursor, SB_DATA_SIZE), if job.cursor < |job.content| then |job.content| - job.cursor else 0)
  }

  lemma FileContinueKeeps(r: RoutineState)
    requires Ok(r) && r.job.FileJob?
    ensures var (t, n) := FileContinue(r);
      && Onward(r.sb, t.sb) && t.phase == r.phase && t.header == r.header
      && t.job == r.job.(cursor := r.job.cursor + n) && t.job.cursor <= r.job.end
      && t.sb.Accepted() == r.header + Slice(r.job.content, r.job.start, t.job.cursor)
      && t.sb.Buffered() <= r.sb.Buffered() + n
      && n <= SB_DATA_SIZE && (n == NextRead(r.job) || (n == 0 && t.sb.failed))
      && (n == 0 && !t.sb.failed ==> t == r && (r.job.cursor == r.job.end || |r.job.content| <= r.job.cursor))
      && (n > 0 && t.sb.buffer.Some? ==> t.sb.buffer.value.pos == t.sb.Buffered())
  {
    hide WriteOf, Slice, Follows, FileBlock, SendState.Accepted, SendState.Valid, SendState.Buffered;
    var data := FileBlock(r.job);
    FileBlockIs(r.job, r.header, 0);
    if data != [] {
      WriteKeeps(r.sb, data);
      var (sb, n) := WriteOf(r.sb, data);
      FollowsOnward(r.sb, sb, data[..n]);
      FileBlockIs(r.job, r.header, n);
    }
  }

  lemma StepFileKeeps(r: RoutineState, marked: bool)
    requires Ok(r) && r.job.FileJob? && r.phase == Continue
    ensures var o := StepFile(r, marked);
      && Later(r, o.r) && (!o.deleted ==> Ok(o.r) && (o.marked <==> marked || o.r.phase == Defer))
      && (o.deleted ==> o.r.phase == Fail && o.r.sb.failed && o.r.job == r.job)
      && (!o.deleted && o.r.phase == Defer ==> o.r.sb.buffer.Some?)
      && (!o.deleted && o.r.sb.buffer.Some? && o.r.phase != Defer ==>
            o.r.sb.Buffered() <= SB_DATA_SIZE && o.r.job.cursor > r.job.cursor)
      && (!o.deleted && o.r.phase == Defer && o.r.job.cursor > r.job.cursor ==> o.r.sb.Buffered() > SB_DATA_SIZE)
  {
    hide FileContinue, Slice, SendState.Accepted;
    FileContinueKeeps(r);
    var (t, o) := (FileContinue(r).0, StepFile(r, marked));
    if !o.deleted {
      assert o.r.sb == t.sb && o.r.job == t.job && o.r.header == t.header;
      assert o.r.phase == Continue ==> t.sb.Buffered() <= SB_DATA_SIZE;
      assert FileOk(o.r);
    }
  }

  // ---- directories

  ghost predicate DirAt(header: seq<byte>, sb: SendState, job: Job) {
    && sb.Valid() && job.DirJob? && job.at <= |job.listing| && job.count == CountItems(job.listing, job.at)
    && (sb.failed || sb.Accepted() == header + Items(job.listing, job.at))
  }

  /** The whole rest of a directory page: every item, the footer, and the last chunk. */
  function DirTail(listing: seq<Entry>): seq<byte> {
    Items(listing, |listing|) + Chunk(Closing(CountItems(listing, |listing|))) + LAST_CHUNK
  }

  lemma DirEndParts(sb: SendState, count: nat)
    requires sb.Valid()
    ensures var (sb1, n) := ChunkOf(sb, Closing(count));
      sb1.Valid() && EndingOf(sb1).Valid()
      && DirEnd(sb, count) == if n > 0 then FlushOf(EndingOf(sb1)).0 else FlushOf(sb1).0
  {
    ChunkKeeps(sb, Closing(count));
    EndingKeeps(ChunkOf(sb, Closing(count)).0);
  }

  lemma DirEndKeeps(sb: SendState, count: nat)
    requires sb.Valid()
    ensures var t := DirEnd(sb, count);
      && Onward(sb, t) && (t.failed || t.Accepted() == sb.Accepted() + (Chunk(Closing(count)) + LAST_CHUNK))
      && (t.buffer.None? || StoppedBy(t)) && (sb.peer.Roomy() ==> t.buffer.None?)
  {
    hide *;
    DirEndParts(sb, count);
    var text := Closing(count);
    var (sb1, n) := ChunkOf(sb, text);
    ChunkKeeps(sb, text);
    FollowsOnward(sb, sb1, ChunkTaken(sb, text));
    EndingKeeps(sb1);
    FollowsOnward(sb1, EndingOf(sb1), EndingTaken(sb1));
    var sb2 := if n > 0 then EndingOf(sb1) else sb1;
    FlushKeeps(sb2);
    var t := FlushOf(sb2).0;
    FollowsOnward(sb2, t, []);
    if n > 0 {
      OnwardTrans(sb, sb1, sb2);
      OnwardFacts(sb1, sb2);
    }
    if sb.peer.Roomy() {
      RoomyFlush(sb, sb2);
    }
    OnwardTrans(sb, sb2, t);
    OnwardFacts(sb2, t);
    if !t.failed {
      assert t.Accepted() == sb.Accepted() + Chunk(text) + LAST_CHUNK + [];
    }
  }

  lemma DirItemIs(listing: seq<Entry>, at: nat)
    requires at < |listing|
    ensures var (e, items) := (listing[at], Items(listing, at));
      Items(listing, at + 1) == if e.hidden || !e.fits then items else items + Chunk(e.link)
  {
  }

  lemma DirItemKeeps(header: seq<byte>, sb: SendState, job: Job)
    requires DirAt(header, sb, job) && job.at < |job.listing|
    ensures var (e, next) := (job.listing[job.at], job.(at := job.at + 1));
      if e.hidden || !e.fits then DirAt(header, sb, next)
      else Onward(sb, ChunkOf(sb, e.link).0) && DirAt(header, ChunkOf(sb, e.link).0, next.(count := job.count + 1))
  {
    hide WriteOf, ChunkOf, ChunkTaken, Chunk, Follows, Onward, SendState.Accepted, SendState.Valid, Items;
    DirItemIs(job.listing, job.at);
    var (e, items) := (job.listing[job.at], Items(job.listing, job.at));
    if !e.hidden && e.fits {
      ChunkKeeps(sb, e.link);
      var t := ChunkOf(sb, e.link).0;
      FollowsOnward(sb, t, ChunkTaken(sb, e.link));
      OnwardFacts(sb, t);
      assert header + items + Chunk(e.link) == header + (items + Chunk(e.link));
    }
  }

  ghost predicate BatchOk(header: seq<byte>, sb: SendState, job: Job, left: nat, b: Batch)
    requires job.DirJob? && job.at <= |job.listing|
  {
    && Onward(sb, b.sb) && (b.sb.buffer.None? || StoppedBy(b.sb)) && (sb.peer.Roomy() ==> b.sb.buffer.None?)
    && b.job.DirJob? && b.job.listing == job.listing && job.at <= b.job.at <= |job.listing|
    && (b.ended ==> b.written == 0 && (b.sb.failed || b.sb.Accepted() == header + DirTail(job.listing)))
    && (!b.ended ==> DirAt(header, b.sb, b.job) && (left > 0 ==> job.at < b.job.at))
  }

  lemma DirStopKeeps(header: seq<byte>, sb: SendState, job: Job, written: nat)
    requires DirAt(header, sb, job)
    ensures BatchOk(header, sb, job, 0, DirBatch(sb, job, 0, written))
  {
    hide Items, CountItems, Onward, Follows;
    FlushKeeps(sb);
    var t := FlushOf(sb).0;
    FollowsOnward(sb, t, []);
    OnwardFacts(sb, t);
    OnwardSame(sb);
    if sb.peer.Roomy() {
      RoomyFlush(sb, sb);
    }
    assert sb.Accepted() + [] == sb.Accepted();
  }

  lemma DirLastKeeps(header: seq<byte>, sb: SendState, job: Job, left: nat, written: nat)
    requires DirAt(header, sb, job) && job.at == |job.listing| && left > 0
    ensures BatchOk(header, sb, job, left, DirBatch(sb, job, left, written))
  {
    hide Items, CountItems, Onward, DirEnd, Chunk, Closing, SendState.Accepted, SendState.Valid;
    DirEndKeeps(sb, job.count);
    OnwardFacts(sb, DirEnd(sb, job.count));
    var (items, tail) := (Items(job.listing, job.at), Chunk(Closing(job.count)) + LAST_CHUNK);
    assert header + items + tail == header + (items + tail);
    assert items + tail == DirTail(job.listing);
  }

  lemma {:induction false} DirBatchKeeps(header: seq<byte>, sb: SendState, job: Job, left: nat, written: nat)
    requires DirAt(header, sb, job)
    ensures BatchOk(header, sb, job, left, DirBatch(sb, job, left, written))
    decreases |job.listing| - job.at
  {
    hide SendState.Accepted, SendState.Valid, ChunkOf, FlushOf, DirEnd, Onward, DirTail, Items, CountItems;
    if left == 0 {
      DirStopKeeps(header, sb, job, written);
    } else if job.at == |job.listing| {
      DirLastKeeps(header, sb, job, left, written);
    } else {
      DirItemKeeps(header, sb, job);
      var (e, next) := (job.listing[job.at], job.(at := job.at + 1));
      if e.hidden {
        DirBatchKeeps(header, sb, next, left, written);
      } else if e.fits {
        var (sb', next') := (ChunkOf(sb, e.link).0, next.(count := job.count + 1));
        DirBatchKeeps(header, sb', next', left - 1, written + |e.link|);
        OnwardFacts(sb, sb');
        OnwardTrans(sb, sb', DirBatch(sb', next', left - 1, written + |e.link|).sb);
      } else {
        DirBatchKeeps(header, sb, next, left - 1, written);
      }
    }
  }

  lemma ShownAt(listing: seq<Entry>, at: nat)
    requires at < |listing|
    ensures var (e, rest) := (listing[at], Shown(listing[at + 1..]));
      Shown(listing[at..]) == if e.hidden then rest else [e] + rest
  {
    assert listing[at..][1..] == listing[at + 1..];
  }

  lemma FirstTaken(e: Entry, rest: seq<Entry>, left: nat)
    requires 0 < left <= |rest| + 1
    ensures ([e] + rest)[left..] == rest[left - 1..]
    ensures AllSkipped(([e] + rest)[..left]) <==> (!e.fits || e.link == []) && AllSkipped(rest[..left - 1])
  {
    var tail := rest[..left - 1];
    assert ([e] + rest)[..left] == [e] + tail;
    assert forall x :: x in [e] + tail <==> x == e || x in tail;
  }

  /** One turn of the loop, at an entry. */
  lemma BatchTurn(sb: SendState, job: Job, left: nat, written: nat)
    requires sb.Valid() && job.DirJob? && job.at < |job.listing| && left > 0
    ensures var (e, next, b) :=
        (job.listing[job.at], job.(at := job.at + 1), DirBatch(sb, job, left, written));
      if e.hidden then b == DirBatch(sb, next, left, written)
      else if e.fits then
        ChunkOf(sb, e.link).0.Valid()
        && b == DirBatch(ChunkOf(sb, e.link).0, next.(count := job.count + 1), left - 1, written + |e.link|)
      else b == DirBatch(sb, next, left - 1, written)
  {
    ChunkKeeps(sb, job.listing[job.at].link);
    hide ChunkOf, FlushOf, DirEnd;
  }

  /** What a batch makes of the entries shown that it has in front of it, if it leaves `after`. */
  ghost predicate Takes(rest: seq<Entry>, left: nat, written: nat, b: Batch, after: seq<Entry>) {
    && (b.ended <==> |rest| < left)
    && (!b.ended ==> after == rest[left..] && (b.written == 0 <==> written == 0 && AllSkipped(rest[..left])))
  }

  lemma TakesOne(e: Entry, rest: seq<Entry>, left: nat, written: nat, b: Batch, after: seq<Entry>)
    requires left > 0 && !e.hidden
    requires Takes(rest, left - 1, if e.fits then written + |e.link| else written, b, after)
    ensures Takes([e] + rest, left, written, b, after)
  {
    if |rest| >= left - 1 {
      FirstTaken(e, rest, left);
      hide AllSkipped;
      assert written + |e.link| == 0 <==> written == 0 && e.link == [];
    }
  }

  ghost predicate BatchTook(job: Job, left: nat, written: nat, b: Batch)
    requires job.DirJob? && job.at <= |job.listing|
  {
    && b.job.DirJob? && b.job.listing == job.listing && b.job.at <= |job.listing|
    && Takes(Shown(job.listing[job.at..]), left, written, b, Shown(job.listing[b.job.at..]))
  }

  lemma TakesNone(sb: SendState, job: Job, left: nat, written: nat)
    requires sb.Valid() && job.DirJob? && job.at <= |job.listing| && (left == 0 || job.at == |job.listing|)
    ensures BatchTook(job, left, written, DirBatch(sb, job, left, written))
  {
    hide FlushOf, DirEnd;
    assert job.at == |job.listing| ==> Shown(job.listing[job.at..]) == [];
  }

  lemma TookOne(job: Job, next: Job, left: nat, written: nat, b: Batch)
    requires job.DirJob? && job.at < |job.listing| && left > 0
    requires next.DirJob? && next.listing == job.listing && next.at == job.at + 1
    requires var e := job.listing[job.at];
      if e.hidden then BatchTook(next, left, written, b)
      else BatchTook(next, left - 1, if e.fits then written + |e.link| else written, b)
    ensures BatchTook(job, left, written, b)
  {
    ShownAt(job.listing, job.at);
    hide Takes, Shown;
    var e := job.listing[job.at];
    if !e.hidden {
      TakesOne(e, Shown(job.listing[next.at..]), left, written, b, Shown(job.listing[b.job.at..]));
    }
  }

  /**
   A batch runs off the end exactly if fewer entries are shown than it has turns. Otherwise it takes
   one each turn, and reports zero bytes exactly if none of them is listed.
   */
  lemma {:induction false} BatchTakes(sb: SendState, job: Job, left: nat, written: nat)
    requires sb.Valid() && job.DirJob? && job.at <= |job.listing|
    ensures BatchTook(job, left, written, DirBatch(sb, job, left, written))
    decreases |job.listing| - job.at
  {
    if left == 0 || job.at == |job.listing| {
      TakesNone(sb, job, left, written);
    } else {
      BatchTurn(sb, job, left, written);
      hide DirBatch, BatchTook, ChunkOf, SendState.Valid;
      var (e, next) := (job.listing[job.at], job.(at := job.at + 1));
      var listed := next.(count := job.count + 1);
      if e.hidden {
        BatchTakes(sb, next, left, written);
        TookOne(job, next, left, written, DirBatch(sb, job, left, written));
      } else if e.fits {
        BatchTakes(ChunkOf(sb, e.link).0, listed, left - 1, written + |e.link|);
        TookOne(job, listed, left, written, DirBatch(sb, job, left, written));
      } else {
        BatchTakes(sb, next, left - 1, written);
        TookOne(job, next, left, written, DirBatch(sb, job, left, written));
      }
    }
  }

  // ---- one step of any routine

  lemma StepFlushKeeps(r: RoutineState, marked: bool)
    requires Ok(r) && (r.phase == Flush || r.phase == Defer)
    ensures var o := Step(r, marked); !o.deleted && Later(r, o.r) && Ok(o.r)
  {
    hide FlushOf, Slice, Items, CountItems, Follows, SendState.Accepted;
    FlushKeeps(r.sb);
    var t := FlushOf(r.sb).0;
    FollowsOnward(r.sb, t, []);
    assert r.sb.Accepted() + [] == r.sb.Accepted();
  }

  /**
   When FLUSH and an unmarked DEFER fail: FLUSH exactly if a send broke and this flush sent nothing, or what it
   sent is not reported because it broke; DEFER if a send ever broke, or if nothing was sent.
   */
  lemma WhenFlushFails(r: RoutineState, marked: bool)
    requires Ok(r) && (r.phase == Flush || r.phase == Defer)
    ensures var o := Step(r, marked);
      match r.phase
      case Flush =>
        && o.marked == marked && (o.r.phase == Continue <==> r.sb.buffer.None?)
        && (r.sb.buffer.Some? ==> o.r.phase == Flush || (o.r.phase == Fail && o.r.sb.failed))
        && (r.sb.buffer.Some? && o.r.sb.failed && (!r.sb.failed || r.sb.peer.Reply() == TryAgain) ==> o.r.phase == Fail)
        && (r.sb.buffer.Some? && r.sb.peer.Unbroken() && r.sb.peer.Takes() ==> o.r.phase == Flush)
      case _ =>
        if marked then o.r == r && o.marked
        else
          && !o.marked && (o.r.phase == Flush || o.r.phase == Fail) && (r.sb.failed ==> o.r == r.(phase := Fail))
          && (o.r.phase == Flush ==> !o.r.sb.failed && |o.r.sb.peer.wire| > |r.sb.peer.wire|)
          && (r.sb.peer.Unbroken() && r.sb.peer.Takes() && !r.sb.failed ==> o.r.phase == Flush)
  {
    FlushKeeps(r.sb);
    var (t, n) := FlushOf(r.sb);
    assert n > 0 ==> |t.peer.wire| > |r.sb.peer.wire|;
    hide FlushOf, Follows, SendState.Pending;
  }

  lemma StepDirKeeps(r: RoutineState, marked: bool)
    requires Ok(r) && r.job.DirJob? && r.phase == Continue
    ensures var o := Step(r, marked); Later(r, o.r) && (!o.deleted ==> Ok(o.r))
  {
    hide DirBatch, Items, CountItems, SendState.Accepted, Shown, AllSkipped;
    DirBatchKeeps(r.header, r.sb, r.job, BATCH, 0);
    BatchTakes(r.sb, r.job, BATCH, 0);
  }

  /**
   Every step keeps the invariant. A mark is left behind only by a routine in DEFER, or was there
   before and is none of this routine's; a deleted routine leaves none. And a step leaves a routine in
   DEFER only with its socket marked: it has just gone there, or it was marked and has not moved.
   */
  lemma StepKeeps(r: RoutineState, marked: bool)
    requires Ok(r)
    ensures var o := Step(r, marked);
      && Later(r, o.r)
      && (!o.deleted ==> Ok(o.r))
      && (o.marked ==> !o.deleted && (o.r.phase == Defer || (marked && r.phase != Defer)))
      && (!o.deleted && o.r.phase == Defer ==> o.marked && (r.phase == Defer ==> marked && o.r == r))
  {
    if r.phase == Flush || r.phase == Defer {
      hide FlushOf;
      StepFlushKeeps(r, marked);
    } else if r.phase == Continue && r.job.FileJob? {
      StepFileKeeps(r, marked);
      hide FileContinue;
    } else if r.phase == Continue && r.job.DirJob? {
      StepDirKeeps(r, marked);
      hide DirBatch;
    }
  }

  /**
   A file routine that reaches FINISH has put exactly the accepted header and the requested bytes
   on the wire, with nothing pending, whatever `send` did on the way.
   */
  lemma FileDelivers(r: RoutineState)
    requires Ok(r) && r.job.FileJob? && r.phase == Finish && r.job.end <= |r.job.content|
    ensures r.sb.peer.wire == r.header + r.job.content[r.job.start..r.job.end]
    ensures r.sb.Pending() == []
  {
    assert r.sb.peer.wire + [] == r.sb.peer.wire;
  }

  /** And a routine without a body has put its whole header there. */
  lemma PlainDelivers(r: RoutineState)
    requires Ok(r) && r.job.NoJob? && r.phase == Finish
    ensures r.sb.peer.wire == r.header && r.sb.Pending() == []
  {
    assert r.sb.peer.wire + [] == r.sb.peer.wire;
  }

  // ---- a directory page is whole

  lemma {:induction false} ItemsGrow(listing: seq<Entry>, at: nat, until: nat)
    requires at <= until <= |listing|
    ensures |Items(listing, at)| <= |Items(listing, until)|
    decreases until
  {
    hide Chunk;
    if at < until {
      ItemsGrow(listing, at, until - 1);
    }
  }

  /**
   When a directory routine goes away and no send failed hard, its buffer has accepted the whole
   page, every item in directory order, the footer and the last chunk, if and only if no ten entries
   that share a batch are all left out. Otherwise it has the items so far, and no end. All that is on the
   wire if the socket takes whole blocks, and up to a send that did not take one if it does not.
   */
  lemma DirectoryDelivers(r: RoutineState, marked: bool)
    requires Ok(r) && r.job.DirJob? && Step(r, marked).deleted && !Step(r, marked).r.sb.failed
    ensures var (listing, page) := (r.job.listing, Step(r, marked).r);
      && (page.sb.Accepted() == r.header + DirTail(listing) <==> !CutShort(Shown(listing)))
      && (CutShort(Shown(listing)) ==> page.job.DirJob? && page.job.at <= |listing|
                                       && page.sb.Accepted() == r.header + Items(listing, page.job.at))
      && (page.sb.buffer.None? || StoppedBy(page.sb))
      && (r.sb.peer.Roomy() ==> page.sb.peer.wire == page.sb.Accepted())
  {
    hide DirBatch, FlushOf, Items, CountItems, SendState.Accepted, Shown, AllSkipped;
    if r.phase == Continue {
      DirBatchKeeps(r.header, r.sb, r.job, BATCH, 0);
      BatchTakes(r.sb, r.job, BATCH, 0);
      var (listing, b) := (r.job.listing, DirBatch(r.sb, r.job, BATCH, 0));
      if !b.ended {
        ItemsGrow(listing, b.job.at, |listing|);
        assert |Items(listing, b.job.at)| < |DirTail(listing)|;
        assert |r.header + Items(listing, b.job.at)| < |r.header + DirTail(listing)|;
      }
      if b.sb.buffer.None? {
        NothingQueued(b.sb);
      }
    }
  }
}
