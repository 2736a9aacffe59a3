/**
 The download loop both flashers share: the image is cut into 256-byte
 chunks written at `baseAddress + offset`; after each successful write the
 progress callback is told the running byte count and may abort.
 The loop is generic over the link type and the chunk writer.
 */
module Download {
  import opened Seqs
  import opened Bytes
  import opened Results
  import opened Chunking

  /** Both `downloadBin`s write at most this many bytes per chunk. */
  const ChunkSize: nat := 256

  datatype Chunk = Chunk(address: int, data: seq<byte>)

  /** What the loop does, in order: it issues a chunk write, or calls the progress callback. */
  datatype Action = Write(chunk: Chunk) | Report(written: nat, total: nat)

  /** The outcome of a download, the link afterwards and the loop's actions. */
  datatype Run<L> = Run(result: Result<()>, link: L, log: seq<Action>)

  function Datas(plan: seq<Chunk>): (r: seq<seq<byte>>)
    ensures |r| == |plan|
    ensures forall i :: 0 <= i < |plan| ==> r[i] == plan[i].data
  {
    seq(|plan|, i requires 0 <= i < |plan| => plan[i].data)
  }

  /**
   The pieces of `data` the slicing loop with step `size` produces: piece `i`
   starts at `baseAddress + size * i` and holds `min(size, n - size * i)`
   bytes, and the pieces concatenate to `data`.
   */
  function Plan(data: seq<byte>, baseAddress: int, size: nat): (plan: seq<Chunk>)
    requires size > 0
    ensures |plan| == PieceCount(|data|, size)
    ensures forall i :: 0 <= i < |plan| ==> plan[i].address == baseAddress + size * i
    ensures forall i :: 0 <= i < |plan| ==> size * i < |data|
    ensures forall i :: 0 <= i < |plan| ==>
      plan[i].data == data[size * i .. Min(size * (i + 1), |data|)]
    ensures forall i :: 0 <= i < |plan| ==> 0 < |plan[i].data| <= size
    ensures forall i :: 0 <= i < |plan| - 1 ==> |plan[i].data| == size
    ensures Datas(plan) == Split(data, size)
    ensures Flatten(Datas(plan)) == data
  {
    SplitCount(data, size);
    SplitPieces(data, size);
    Chunks(Split(data, size), baseAddress, size)
  }

  /** Piece `i` of `pieces` placed at `baseAddress + size * i`. */
  function Chunks(pieces: seq<seq<byte>>, baseAddress: int, size: nat): (plan: seq<Chunk>)
    ensures |plan| == |pieces|
    ensures forall i :: 0 <= i < |plan| ==> plan[i] == Chunk(baseAddress + size * i, pieces[i])
    ensures Datas(plan) == pieces
  {
    var plan := seq(|pieces|, i requires 0 <= i < |pieces| => Chunk(baseAddress + size * i, pieces[i]));
    assert Datas(plan) == pieces;
    plan
  }

  /**
   Everything the loop does when nothing goes wrong: each chunk's write,
   then the report of the byte count so far.
   */
  function Schedule(plan: seq<Chunk>, written: nat, total: nat): (s: seq<Action>)
    ensures |s| == 2 * |plan|
    decreases |plan|
  {
    if |plan| == 0 then []
    else
      var w := written + |plan[0].data|;
      [Write(plan[0]), Report(w, total)] + Schedule(plan[1..], w, total)
  }

  /** Whether `a` is a progress report on which the callback throws. */
  predicate Aborts(abort: (nat, nat) -> bool, a: Action)
  {
    a.Report? && abort(a.written, a.total)
  }

  /**
   The log so far is a prefix of the schedule, and no report before its
   last action aborted.
   */
  predicate Follows(log: seq<Action>, sched: seq<Action>, abort: (nat, nat) -> bool)
  {
    && |log| <= |sched|
    && log == sched[..|log|]
    && (forall i :: 0 <= i < |log| - 1 ==> !Aborts(abort, log[i]))
  }

  /** The whole schedule ran, and its last report did not abort. */
  predicate Completes(log: seq<Action>, sched: seq<Action>, abort: (nat, nat) -> bool)
  {
    log == sched && (|log| == 0 || !Aborts(abort, log[|log| - 1]))
  }

  /** What a download of `data` at `baseAddress` does when nothing goes wrong. */
  function ImageSchedule(data: seq<byte>, baseAddress: int): (s: seq<Action>)
    ensures |s| == 2 * PieceCount(|data|, ChunkSize)
  {
    Schedule(Plan(data, baseAddress, ChunkSize), 0, |data|)
  }

  /**
   The loop from the first chunk of `plan` on. `write` issues one chunk's
   write; `abort` is the progress callback's decision to throw.
   */
  function Drive<L>(link: L, write: (L, Chunk) -> (Result<()>, L), abort: (nat, nat) -> bool,
                    plan: seq<Chunk>, written: nat, total: nat): (r: Run<L>)
    ensures Follows(r.log, Schedule(plan, written, total), abort)
    ensures r.result.Ok? <==> Completes(r.log, Schedule(plan, written, total), abort)
    ensures r.result.Err? ==> |r.log| > 0
    ensures r.result.Err? && r.log[|r.log| - 1].Report? ==>
      r.result == Err(Cancelled) && Aborts(abort, r.log[|r.log| - 1])
    decreases |plan|
  {
    if |plan| == 0 then Run(Ok(()), link, [])
    else
      var step := write(link, plan[0]);
      var w := written + |plan[0].data|;
      ScheduleCons(plan, written, total);
      if step.0.Err? then Run(step.0, step.1, [Write(plan[0])])
      else if abort(w, total) then Run(Err(Cancelled), step.1, [Write(plan[0]), Report(w, total)])
      else
        var rest := Drive(step.1, write, abort, plan[1..], w, total);
        FollowsCons(plan[0], w, total, rest.log, Schedule(plan[1..], w, total), abort);
        Run(rest.result, rest.link, [Write(plan[0]), Report(w, total)] + rest.log)
  }

  /** A turn that did not abort, in front of a log that follows a schedule, follows the longer schedule. */
  lemma FollowsCons(c: Chunk, w: nat, total: nat, tail: seq<Action>, sched: seq<Action>, abort: (nat, nat) -> bool)
    requires !abort(w, total)
    requires Follows(tail, sched, abort)
    ensures var head := [Write(c), Report(w, total)];
      && Follows(head + tail, head + sched, abort)
      && (Completes(head + tail, head + sched, abort) <==> Completes(tail, sched, abort))
      && (|tail| > 0 ==> (head + tail)[|head + tail| - 1] == tail[|tail| - 1])
  {
    var head := [Write(c), Report(w, total)];
    var log := head + tail;
    assert (head + sched)[..|log|] == head + sched[..|tail|];
    forall i | 0 <= i < |log| - 1
      ensures !Aborts(abort, log[i])
    {
      if i >= 2 {
        assert log[i] == tail[i - 2];
      }
    }
    if head + tail == head + sched {
      assert tail == (head + tail)[2..] == (head + sched)[2..] == sched;
    }
  }

  /**
   If chunk `i`'s write succeeds and takes the link from `links[i]` to
   `links[i + 1]`, and no report aborts, the loop runs its whole schedule
   and leaves the link at the last of `links`.
   */
  lemma {:induction false} DriveCompletes<L>(link: L, write: (L, Chunk) -> (Result<()>, L), abort: (nat, nat) -> bool,
                                             plan: seq<Chunk>, written: nat, total: nat, links: seq<L>)
    requires |links| == |plan| + 1 && links[0] == link
    requires forall i :: 0 <= i < |plan| ==> write(links[i], plan[i]) == (Ok(()), links[i + 1])
    requires forall i :: 0 <= i < 2 * |plan| ==> !Aborts(abort, Schedule(plan, written, total)[i])
    ensures Drive(link, write, abort, plan, written, total) == Run(Ok(()), links[|plan|], Schedule(plan, written, total))
    decreases |plan|
  {
    if |plan| > 0 {
      var w := written + |plan[0].data|;
      var sched := Schedule(plan, written, total);
      assert sched == [Write(plan[0]), Report(w, total)] + Schedule(plan[1..], w, total);
      assert !Aborts(abort, sched[1]);
      forall i | 0 <= i < |plan[1..]|
        ensures write(links[1..][i], plan[1..][i]) == (Ok(()), links[1..][i + 1])
      {
        assert write(links[i + 1], plan[i + 1]) == (Ok(()), links[i + 2]);
      }
      forall i | 0 <= i < 2 * |plan[1..]|
        ensures !Aborts(abort, Schedule(plan[1..], w, total)[i])
      {
        assert Schedule(plan[1..], w, total)[i] == sched[i + 2];
      }
      DriveCompletes(links[1], write, abort, plan[1..], w, total, links[1..]);
    }
  }

  /** What the writes in `log` emit, in order. */
  function Emitted<F>(log: seq<Action>, emit: Chunk -> seq<F>): seq<F>
  {
    if |log| == 0 then []
    else (if log[0].Write? then emit(log[0].chunk) else []) + Emitted(log[1..], emit)
  }

  lemma {:induction false} EmittedAppend<F>(a: seq<Action>, b: seq<Action>, emit: Chunk -> seq<F>)
    ensures Emitted(a + b, emit) == Emitted(a, emit) + Emitted(b, emit)
    decreases |a|
  {
    if |a| == 0 {
      assert a + b == b;
    } else {
      assert (a + b)[1..] == a[1..] + b;
      EmittedAppend(a[1..], b, emit);
    }
  }

  /**
   If every write, whatever its outcome, appends `emit(chunk)` to what the
   link has sent, then after the loop the link has sent exactly what the
   writes in the log emit, in the order of the log.
   */
  lemma {:induction false} DriveTrace<L, F>(link: L, write: (L, Chunk) -> (Result<()>, L), abort: (nat, nat) -> bool,
                                            plan: seq<Chunk>, written: nat, total: nat,
                                            trace: L -> seq<F>, emit: Chunk -> seq<F>)
    requires forall l: L, c: Chunk :: trace(write(l, c).1) == trace(l) + emit(c)
    ensures var r := Drive(link, write, abort, plan, written, total);
      trace(r.link) == trace(link) + Emitted(r.log, emit)
    decreases |plan|
  {
    if |plan| > 0 {
      var w := written + |plan[0].data|;
      if write(link, plan[0]).0.Ok? && !abort(w, total) {
        DriveTrace(write(link, plan[0]).1, write, abort, plan[1..], w, total, trace, emit);
        DriveTraceGoesOn(link, write, abort, plan, written, total, trace, emit);
      } else {
        DriveTraceStops(link, write, abort, plan, written, total, trace, emit);
      }
    }
  }

  /** A turn that ends the loop emits the first chunk's output and nothing more. */
  lemma DriveTraceStops<L, F>(link: L, write: (L, Chunk) -> (Result<()>, L), abort: (nat, nat) -> bool,
                              plan: seq<Chunk>, written: nat, total: nat,
                              trace: L -> seq<F>, emit: Chunk -> seq<F>)
    requires |plan| > 0
    requires trace(write(link, plan[0]).1) == trace(link) + emit(plan[0])
    requires write(link, plan[0]).0.Err? || abort(written + |plan[0].data|, total)
    ensures var r := Drive(link, write, abort, plan, written, total);
      trace(r.link) == trace(link) + Emitted(r.log, emit)
  {
    DriveUnfold(link, write, abort, plan, written, total);
    EmittedHead(plan[0], written + |plan[0].data|, total, emit);
  }

  /** A turn that goes on emits the first chunk's output, then what the rest of the loop emits. */
  lemma DriveTraceGoesOn<L, F>(link: L, write: (L, Chunk) -> (Result<()>, L), abort: (nat, nat) -> bool,
                               plan: seq<Chunk>, written: nat, total: nat,
                               trace: L -> seq<F>, emit: Chunk -> seq<F>)
    requires |plan| > 0
    requires trace(write(link, plan[0]).1) == trace(link) + emit(plan[0])
    requires write(link, plan[0]).0.Ok? && !abort(written + |plan[0].data|, total)
    requires var rest := Drive(write(link, plan[0]).1, write, abort, plan[1..], written + |plan[0].data|, total);
      trace(rest.link) == trace(write(link, plan[0]).1) + Emitted(rest.log, emit)
    ensures var r := Drive(link, write, abort, plan, written, total);
      trace(r.link) == trace(link) + Emitted(r.log, emit)
  {
    DriveUnfold(link, write, abort, plan, written, total);
    var rest := Drive(write(link, plan[0]).1, write, abort, plan[1..], written + |plan[0].data|, total);
    TraceStep(trace(link), trace(write(link, plan[0]).1), trace(rest.link), plan[0],
              written + |plan[0].data|, total, rest.log, emit);
  }

  /** Whatever one turn emits, followed by what the rest of the loop emits. */
  lemma TraceStep<F>(before: seq<F>, middle: seq<F>, after: seq<F>, c: Chunk, w: nat, total: nat,
                     restLog: seq<Action>, emit: Chunk -> seq<F>)
    requires middle == before + emit(c)
    requires after == middle + Emitted(restLog, emit)
    ensures after == before + Emitted([Write(c), Report(w, total)] + restLog, emit)
  {
    EmittedHead(c, w, total, emit);
    EmittedAppend([Write(c), Report(w, total)], restLog, emit);
  }

  /** One turn of the loop, as the three ways it can go. */
  lemma DriveUnfold<L>(link: L, write: (L, Chunk) -> (Result<()>, L), abort: (nat, nat) -> bool,
                       plan: seq<Chunk>, written: nat, total: nat)
    requires |plan| > 0
    ensures var step := write(link, plan[0]);
      var w := written + |plan[0].data|;
      var r := Drive(link, write, abort, plan, written, total);
      && (step.0.Err? ==> r == Run(step.0, step.1, [Write(plan[0])]))
      && (step.0.Ok? && abort(w, total) ==> r == Run(Err(Cancelled), step.1, [Write(plan[0]), Report(w, total)]))
      && (step.0.Ok? && !abort(w, total) ==>
            var rest := Drive(step.1, write, abort, plan[1..], w, total);
            r == Run(rest.result, rest.link, [Write(plan[0]), Report(w, total)] + rest.log))
  {
  }

  /** A chunk's write emits the chunk's output; its report emits nothing. */
  lemma EmittedHead<F>(c: Chunk, w: nat, total: nat, emit: Chunk -> seq<F>)
    ensures Emitted([Write(c)], emit) == emit(c)
    ensures Emitted([Write(c), Report(w, total)], emit) == emit(c)
  {
    var head := [Write(c), Report(w, total)];
    assert head[1..] == [Report(w, total)];
    assert head[1..][1..] == [];
  }

  /** With writes that cannot fail and a callback that never aborts, the loop runs its whole schedule. */
  lemma {:induction false} DriveWithoutFailures<L>(link: L, write: (L, Chunk) -> (Result<()>, L), abort: (nat, nat) -> bool,
                                                   plan: seq<Chunk>, written: nat, total: nat)
    requires forall l: L, c: Chunk :: write(l, c).0.Ok?
    requires forall i :: 0 <= i < 2 * |plan| ==> !Aborts(abort, Schedule(plan, written, total)[i])
    ensures Drive(link, write, abort, plan, written, total).result.Ok?
    ensures Drive(link, write, abort, plan, written, total).log == Schedule(plan, written, total)
    decreases |plan|
  {
    if |plan| > 0 {
      var w := written + |plan[0].data|;
      var sched := Schedule(plan, written, total);
      assert sched == [Write(plan[0]), Report(w, total)] + Schedule(plan[1..], w, total);
      assert !Aborts(abort, sched[1]);
      forall i | 0 <= i < 2 * |plan[1..]|
        ensures !Aborts(abort, Schedule(plan[1..], w, total)[i])
      {
        assert Schedule(plan[1..], w, total)[i] == sched[i + 2];
      }
      DriveWithoutFailures(write(link, plan[0]).1, write, abort, plan[1..], w, total);
    }
  }

  /** A callback that never aborts aborts on no report of any schedule. */
  lemma NeverAborts(abort: (nat, nat) -> bool, plan: seq<Chunk>, written: nat, total: nat)
    requires forall w: nat, t: nat :: !abort(w, t)
    ensures forall i :: 0 <= i < 2 * |plan| ==> !Aborts(abort, Schedule(plan, written, total)[i])
  {
    forall i | 0 <= i < 2 * |plan|
      ensures !Aborts(abort, Schedule(plan, written, total)[i])
    {
      var a := Schedule(plan, written, total)[i];
      if a.Report? {
        assert !abort(a.written, a.total);
      }
    }
  }

  /** Each chunk's output, in plan order. */
  function EmitAll<F>(plan: seq<Chunk>, emit: Chunk -> seq<F>): (r: seq<seq<F>>)
    ensures |r| == |plan|
    ensures forall i :: 0 <= i < |plan| ==> r[i] == emit(plan[i])
  {
    seq(|plan|, i requires 0 <= i < |plan| => emit(plan[i]))
  }

  /** The writes of the whole schedule emit each chunk's output in plan order. */
  lemma {:induction false} EmittedSchedule<F>(plan: seq<Chunk>, written: nat, total: nat, emit: Chunk -> seq<F>)
    ensures Emitted(Schedule(plan, written, total), emit) == Flatten(EmitAll(plan, emit))
    decreases |plan|
  {
    if |plan| > 0 {
      var w := written + |plan[0].data|;
      var head := [Write(plan[0]), Report(w, total)];
      var rest := Schedule(plan[1..], w, total);
      assert Schedule(plan, written, total) == head + rest;
      EmittedAppend(head, rest, emit);
      assert Emitted(head, emit) == emit(plan[0]) by {
        assert head[1..] == [Report(w, total)];
        assert head[1..][1..] == [];
      }
      EmittedSchedule(plan[1..], w, total, emit);
      assert EmitAll(plan, emit)[1..] == EmitAll(plan[1..], emit);
    }
  }

  /**
   The loop adds only one error of its own, `Cancelled`: every other error
   is one a chunk write returned.
   */
  lemma {:induction false} DriveErrors<L>(link: L, write: (L, Chunk) -> (Result<()>, L), abort: (nat, nat) -> bool,
                                          plan: seq<Chunk>, written: nat, total: nat, allowed: Error -> bool)
    requires forall l: L, i :: 0 <= i < |plan| && write(l, plan[i]).0.Err? ==> allowed(write(l, plan[i]).0.error)
    ensures var r := Drive(link, write, abort, plan, written, total);
      r.result.Err? ==> r.result.error == Cancelled || allowed(r.result.error)
    decreases |plan|
  {
    if |plan| > 0 {
      var step := write(link, plan[0]);
      forall l: L, i | 0 <= i < |plan[1..]| && write(l, plan[1..][i]).0.Err?
        ensures allowed(write(l, plan[1..][i]).0.error)
      {
        assert plan[1..][i] == plan[i + 1];
      }
      DriveErrors(step.1, write, abort, plan[1..], written + |plan[0].data|, total, allowed);
    }
  }

  /** The byte count reported after chunk `j`: the bytes of chunks `0..j`. */
  lemma {:induction false} ScheduleAt(plan: seq<Chunk>, written: nat, total: nat, j: nat)
    requires j < |plan|
    ensures Schedule(plan, written, total)[2 * j] == Write(plan[j])
    ensures Schedule(plan, written, total)[2 * j + 1]
         == Report(written + |Flatten(Datas(plan[..j + 1]))|, total)
    decreases j
  {
    var w := written + |plan[0].data|;
    ScheduleCons(plan, written, total);
    if j == 0 {
      DatasFirst(plan);
    } else {
      ScheduleAt(plan[1..], w, total, j - 1);
      DatasPrefixCons(plan, j);
    }
  }

  lemma ScheduleCons(plan: seq<Chunk>, written: nat, total: nat)
    requires |plan| > 0
    ensures Schedule(plan, written, total)
         == [Write(plan[0]), Report(written + |plan[0].data|, total)] + Schedule(plan[1..], written + |plan[0].data|, total)
  {
  }

  lemma DatasFirst(plan: seq<Chunk>)
    requires |plan| > 0
    ensures |Flatten(Datas(plan[..1]))| == |plan[0].data|
  {
    assert Datas(plan[..1]) == [plan[0].data];
    FlattenSingle(plan[0].data);
  }

  /** The bytes of chunks `0..j` are the first chunk's then those of chunks `1..j`. */
  lemma DatasPrefixCons(plan: seq<Chunk>, j: nat)
    requires 0 < j < |plan|
    ensures |Flatten(Datas(plan[..j + 1]))| == |plan[0].data| + |Flatten(Datas(plan[1..][..j]))|
  {
    assert Datas(plan[..j + 1])[1..] == Datas(plan[1..][..j]);
  }

  /**
   On the 256-byte chunks of an image, chunk `j` is written at
   `baseAddress + 256 * j` and the `j`-th report is `min(256 * (j + 1), n)`
   out of `n`: a strictly increasing count that ends at `n`.
   */
  lemma ProgressOfPlan(data: seq<byte>, baseAddress: int, j: nat)
    requires j < |Plan(data, baseAddress, ChunkSize)|
    ensures Schedule(Plan(data, baseAddress, ChunkSize), 0, |data|)[2 * j]
         == Write(Chunk(baseAddress + ChunkSize * j, data[ChunkSize * j .. Min(ChunkSize * (j + 1), |data|)]))
    ensures Schedule(Plan(data, baseAddress, ChunkSize), 0, |data|)[2 * j + 1]
         == Report(Min(ChunkSize * (j + 1), |data|), |data|)
    ensures j == |Plan(data, baseAddress, ChunkSize)| - 1 ==> Min(ChunkSize * (j + 1), |data|) == |data|
  {
    ScheduleAt(Plan(data, baseAddress, ChunkSize), 0, |data|, j);
    PlanPrefix(data, baseAddress, j);
    if j == |Plan(data, baseAddress, ChunkSize)| - 1 {
      PlanWhole(data, baseAddress);
    }
  }

  /** Chunks `0..j` of an image hold its first `min(256 * (j + 1), n)` bytes. */
  lemma PlanPrefix(data: seq<byte>, baseAddress: int, j: nat)
    requires j < |Plan(data, baseAddress, ChunkSize)|
    ensures |Flatten(Datas(Plan(data, baseAddress, ChunkSize)[..j + 1]))| == Min(ChunkSize * (j + 1), |data|)
  {
    var plan := Plan(data, baseAddress, ChunkSize);
    assert Datas(plan[..j + 1]) == Split(data, ChunkSize)[..j + 1];
    SplitPrefix(data, ChunkSize, j + 1);
  }

  /** All the chunks of an image hold all of it. */
  lemma PlanWhole(data: seq<byte>, baseAddress: int)
    ensures |Plan(data, baseAddress, ChunkSize)| > 0 ==>
      Min(ChunkSize * |Plan(data, baseAddress, ChunkSize)|, |data|) == |data|
  {
    var n := |Plan(data, baseAddress, ChunkSize)|;
    SplitPrefix(data, ChunkSize, n);
    assert Split(data, ChunkSize)[..n] == Split(data, ChunkSize);
  }
}
