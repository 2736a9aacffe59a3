/**
 The ST-LINK probe as the flasher sees it through WebUSB bulk transfers:
 every command goes out as one frame zero-padded to 16 bytes, and replies
 are taken from a queue of packets the probe would answer with.
 */
module ProbeLink {
  import opened Bytes
  import opened Results

  /** `padCmd(cmd)`: commands shorter than 16 bytes are zero-filled to 16; longer ones go out unchanged. */
  function PadCmd(cmd: seq<byte>): (r: seq<byte>)
    ensures |r| == if |cmd| >= 16 then |cmd| else 16
    ensures r[..|cmd|] == cmd
    ensures forall i :: |cmd| <= i < |r| ==> r[i] == 0
  {
    if |cmd| >= 16 then cmd else cmd + Zeros(16 - |cmd|)
  }

  /** Padding a frame that is already padded changes nothing. */
  lemma PadCmdIdempotent(cmd: seq<byte>)
    ensures PadCmd(PadCmd(cmd)) == PadCmd(cmd)
  {
  }

  /** Padding keeps commands of one length (at most 16) apart. */
  lemma PadCmdInjective(a: seq<byte>, b: seq<byte>)
    requires |a| == |b| <= 16
    ensures PadCmd(a) == PadCmd(b) <==> a == b
  {
    if PadCmd(a) == PadCmd(b) {
      assert a == PadCmd(a)[..|a|];
    }
  }

  /** The replies still to come and every frame sent so far. */
  datatype Probe = Probe(replies: seq<seq<byte>>, frames: seq<seq<byte>>)

  /** A result together with the probe after the operation. */
  datatype ProbeStep<+T> = ProbeStep(result: Result<T>, probe: Probe)

  /** `send(data)`: one bulk-out transfer of the padded command. */
  function Send(p: Probe, cmd: seq<byte>): (r: Probe)
    ensures r.replies == p.replies
    ensures r.frames == p.frames + [PadCmd(cmd)]
  {
    p.(frames := p.frames + [PadCmd(cmd)])
  }

  /**
   `receive()`: one bulk-in transfer. An empty queue stands for a transfer
   that rejects because the device has gone away; a probe that stays
   attached and silent, on which the transfer never returns, has no
   counterpart here.
   */
  function Receive(p: Probe): (r: ProbeStep<seq<byte>>)
    ensures r.probe.frames == p.frames
    ensures r.result.Ok? <==> |p.replies| > 0
    ensures r.result.Ok? ==> r.result.value == p.replies[0] && r.probe.replies == p.replies[1..]
    ensures r.result.Err? ==> r.result.error == Disconnected && r.probe == p
  {
    if |p.replies| == 0 then ProbeStep(Err(Disconnected), p)
    else ProbeStep(Ok(p.replies[0]), p.(replies := p.replies[1..]))
  }
}
