/**
 `UARTISP.downloadBin`: the image is cut into 256-byte chunks, each written
 with one Write Memory exchange at `baseAddress + offset`, each followed by
 a progress report that may abort the download.
 */
module UartDownload {
  import opened Seqs
  import opened Bytes
  import opened Results
  import opened Chunking
  import opened SerialLink
  import opened UartIsp
  import opened Download

  /** One chunk written with Write Memory. */
  function WriteChunk(l: Link, c: Chunk): (Result<()>, Link)
  {
    var s := WriteMemory(l, c.address, c.data);
    (s.result, s.link)
  }

  /** `downloadBin(data, baseAddress, progressCallback)`. */
  function DownloadBin(l: Link, data: seq<byte>, baseAddress: int, abort: (nat, nat) -> bool): (r: Run<Link>)
    ensures Follows(r.log, ImageSchedule(data, baseAddress), abort)
    ensures r.result.Ok? <==> Completes(r.log, ImageSchedule(data, baseAddress), abort)
    ensures r.result.Err? ==> r.result.error == Cancelled || AckFailure(r.result.error)
    ensures |data| == 0 ==> r == Run(Ok(()), l, [])
  {
    var plan := Plan(data, baseAddress, ChunkSize);
    WriteChunkFails(plan);
    DriveErrors(l, WriteChunk, abort, plan, 0, |data|, AckFailure);
    Drive(l, WriteChunk, abort, plan, 0, |data|)
  }

  /** A chunk of at most 256 bytes fails only on a missing ACK. */
  lemma WriteChunkFails(plan: seq<Chunk>)
    requires forall i :: 0 <= i < |plan| ==> |plan[i].data| <= MaxWrite
    ensures forall l: Link, i :: 0 <= i < |plan| && WriteChunk(l, plan[i]).0.Err? ==> AckFailure(WriteChunk(l, plan[i]).0.error)
  {
  }

  /** The bytes of every chunk's Write Memory exchange, in order. */
  function Frames(plan: seq<Chunk>): (r: seq<seq<byte>>)
    ensures |r| == |plan|
    ensures forall i :: 0 <= i < |plan| ==> r[i] == WriteFrame(plan[i].address, plan[i].data)
  {
    seq(|plan|, i requires 0 <= i < |plan| => WriteFrame(plan[i].address, plan[i].data))
  }

  /** The link after the first `i` chunks were written and acknowledged. */
  function LinkAfter(l: Link, plan: seq<Chunk>, i: nat): Link
    requires i <= |plan| && 3 * |plan| <= |l.script|
  {
    Link(l.script[3 * i..], l.sent + Flatten(Frames(plan[..i])))
  }

  /**
   When every Write Memory block is acknowledged and the callback never
   aborts, the loop completes its whole schedule, sends exactly the chunks'
   frames one after the other and consumes three ACKs per chunk.
   */
  lemma DriveAcked(l: Link, abort: (nat, nat) -> bool, plan: seq<Chunk>, written: nat, total: nat)
    requires forall i :: 0 <= i < |plan| ==> |plan[i].data| <= MaxWrite
    requires 3 * |plan| <= |l.script|
    requires forall i :: 0 <= i < 3 * |plan| ==> AckAt(l.script, i)
    requires forall i :: 0 <= i < 2 * |plan| ==> !Aborts(abort, Schedule(plan, written, total)[i])
    ensures Drive(l, WriteChunk, abort, plan, written, total)
         == Run(Ok(()), Link(l.script[3 * |plan|..], l.sent + Flatten(Frames(plan))), Schedule(plan, written, total))
  {
    var links := seq(|plan| + 1, i requires 0 <= i <= |plan| => LinkAfter(l, plan, i));
    assert links[0] == l by {
      assert l.script[0..] == l.script;
      assert plan[..0] == [];
    }
    forall i | 0 <= i < |plan|
      ensures WriteChunk(links[i], plan[i]) == (Ok(()), links[i + 1])
    {
      WriteChunkAcked(l, plan, i);
    }
    DriveCompletes(l, WriteChunk, abort, plan, written, total, links);
    assert plan[..|plan|] == plan;
  }

  /** One acknowledged chunk moves the link from `LinkAfter(i)` to `LinkAfter(i + 1)`. */
  lemma WriteChunkAcked(l: Link, plan: seq<Chunk>, i: nat)
    requires i < |plan| && |plan[i].data| <= MaxWrite
    requires 3 * |plan| <= |l.script|
    requires AckAt(l.script, 3 * i) && AckAt(l.script, 3 * i + 1) && AckAt(l.script, 3 * i + 2)
    ensures WriteChunk(LinkAfter(l, plan, i), plan[i]) == (Ok(()), LinkAfter(l, plan, i + 1))
  {
    var li := LinkAfter(l, plan, i);
    assert AckAt(li.script, 0) && AckAt(li.script, 1) && AckAt(li.script, 2);
    AckedWrite(li, plan[i]);
    LinkAfterStep(l, plan, i);
  }

  /** Three ACKs in a row: the chunk's frame goes out and the ACKs are consumed. */
  lemma AckedWrite(l: Link, c: Chunk)
    requires |c.data| <= MaxWrite
    requires AckAt(l.script, 0) && AckAt(l.script, 1) && AckAt(l.script, 2)
    ensures WriteChunk(l, c) == (Ok(()), Link(l.script[3..], l.sent + WriteFrame(c.address, c.data)))
  {
  }

  /** `LinkAfter(i + 1)` is `LinkAfter(i)` with chunk `i`'s frame sent and three more events consumed. */
  lemma LinkAfterStep(l: Link, plan: seq<Chunk>, i: nat)
    requires i < |plan| && 3 * |plan| <= |l.script|
    ensures LinkAfter(l, plan, i + 1)
         == Link(LinkAfter(l, plan, i).script[3..], LinkAfter(l, plan, i).sent + WriteFrame(plan[i].address, plan[i].data))
  {
    assert l.script[3 * i..][3..] == l.script[3 * (i + 1)..];
    FramesStep(plan, i);
    ConcatAssoc(l.sent, Flatten(Frames(plan[..i])), WriteFrame(plan[i].address, plan[i].data));
  }

  /** The frames of chunks `0..i` followed by chunk `i`'s frame. */
  lemma FramesStep(plan: seq<Chunk>, i: nat)
    requires i < |plan|
    ensures Flatten(Frames(plan[..i + 1])) == Flatten(Frames(plan[..i])) + WriteFrame(plan[i].address, plan[i].data)
  {
    assert plan[..i + 1] == plan[..i] + [plan[i]];
    assert Frames(plan[..i + 1]) == Frames(plan[..i]) + [WriteFrame(plan[i].address, plan[i].data)];
    FlattenAppend(Frames(plan[..i]), [WriteFrame(plan[i].address, plan[i].data)]);
    FlattenSingle(WriteFrame(plan[i].address, plan[i].data));
  }

  /**
   An image of `n` bytes against a bootloader that acknowledges everything,
   with a callback that never aborts: ceil(n / 256) Write Memory exchanges,
   chunk `i` at `baseAddress + 256 * i`, whose frames are all that is sent.
   */
  lemma DownloadAcked(l: Link, data: seq<byte>, baseAddress: int, abort: (nat, nat) -> bool)
    requires 3 * PieceCount(|data|, ChunkSize) <= |l.script|
    requires forall i :: 0 <= i < 3 * PieceCount(|data|, ChunkSize) ==> AckAt(l.script, i)
    requires forall w: nat, t: nat :: !abort(w, t)
    ensures var plan := Plan(data, baseAddress, ChunkSize);
      && |plan| == PieceCount(|data|, ChunkSize)
      && DownloadBin(l, data, baseAddress, abort)
         == Run(Ok(()), Link(l.script[3 * |plan|..], l.sent + Flatten(Frames(plan))), Schedule(plan, 0, |data|))
  {
    var plan := Plan(data, baseAddress, ChunkSize);
    DriveAcked(l, abort, plan, 0, |data|);
  }

  /** Progress reports strictly increase along the schedule of an image. */
  lemma ProgressIncreases(data: seq<byte>, baseAddress: int, j: nat, k: nat)
    requires j < k < |Plan(data, baseAddress, ChunkSize)|
    ensures Schedule(Plan(data, baseAddress, ChunkSize), 0, |data|)[2 * j + 1].Report?
    ensures Schedule(Plan(data, baseAddress, ChunkSize), 0, |data|)[2 * k + 1].Report?
    ensures Schedule(Plan(data, baseAddress, ChunkSize), 0, |data|)[2 * j + 1].written
          < Schedule(Plan(data, baseAddress, ChunkSize), 0, |data|)[2 * k + 1].written
  {
    ProgressOfPlan(data, baseAddress, j);
    ProgressOfPlan(data, baseAddress, k);
    assert ChunkSize * k < |data|;
    assert ChunkSize * (j + 1) <= ChunkSize * k;
  }

  /**
   A report on which the callback aborts is the last thing the download
   does: no chunk is written after it.
   */
  lemma NoWriteAfterAbort(l: Link, data: seq<byte>, baseAddress: int, abort: (nat, nat) -> bool, i: nat)
    requires i < |DownloadBin(l, data, baseAddress, abort).log|
    requires Aborts(abort, DownloadBin(l, data, baseAddress, abort).log[i])
    ensures i == |DownloadBin(l, data, baseAddress, abort).log| - 1
    ensures DownloadBin(l, data, baseAddress, abort).result == Err(Cancelled)
  {
  }
}
