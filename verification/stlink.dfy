/**
 The ST-LINK flasher: fixed debug commands, the word-aligned memory write
 split into 128-byte sub-chunks sent as 16-byte packets, and the
 `downloadBin` sequence version, SWD, force debug, frequency, halt, erase,
 chunk writes, reset.
 */
module StLink {
  import opened Seqs
  import opened Bytes
  import opened Results
  import opened Chunking
  import opened ProbeLink
  import opened Download

  const GET_VERSION: byte := 0xF1
  const DEBUG_COMMAND: byte := 0xF2
  const DEBUG_ENTER: byte := 0x20
  const DEBUG_ENTER_SWD: byte := 0xA3
  const DEBUG_WRITE_MEM_32BIT: byte := 0x0D
  const DEBUG_ERASE_FLASH: byte := 0x43
  const DEBUG_RESETSYS: byte := 0x22
  const DEBUG_FORCEDEBUG: byte := 0xA4
  const DEBUG_APIV2_SWD_SET_FREQ: byte := 0x43
  const DEBUG_HALT: byte := 0x02

  /** A memory write is sent in sub-chunks of at most this many bytes ... */
  const SubChunkSize: nat := 128
  /** ... each as data packets of at most this many bytes. */
  const PacketSize: nat := 16

  /** The defaults of `downloadBin`: the start of STM32 flash and 1.8 MHz. */
  const DefaultBaseAddress: int := 0x0800_0000
  const DefaultSwdFreq: int := 1_800_000

  // ---------------------------------------------------------------------------
  // Fixed commands

  function VersionCmd(): seq<byte> { [GET_VERSION] }

  function EnterSwdCmd(): seq<byte> { [DEBUG_COMMAND, DEBUG_ENTER, DEBUG_ENTER_SWD] }

  function ForceDebugCmd(): seq<byte> { [DEBUG_COMMAND, DEBUG_FORCEDEBUG] }

  function HaltCmd(): seq<byte> { [DEBUG_COMMAND, DEBUG_HALT] }

  function ResetCmd(): seq<byte> { [DEBUG_COMMAND, DEBUG_RESETSYS] }

  /** `eraseFlash`: the erase sub-opcode followed by four 0xFF bytes. */
  function EraseCmd(): seq<byte> { [DEBUG_COMMAND, DEBUG_ERASE_FLASH, 0xFF, 0xFF, 0xFF, 0xFF] }

  /**
   The fixed commands on the wire: each padded frame is its command bytes
   followed by zeros, and no two of them are the same frame.
   */
  lemma FixedFrames()
    ensures PadCmd(VersionCmd()) == [0xF1] + Zeros(15)
    ensures PadCmd(EnterSwdCmd()) == [0xF2, 0x20, 0xA3] + Zeros(13)
    ensures PadCmd(ForceDebugCmd()) == [0xF2, 0xA4] + Zeros(14)
    ensures PadCmd(HaltCmd()) == [0xF2, 0x02] + Zeros(14)
    ensures PadCmd(ResetCmd()) == [0xF2, 0x22] + Zeros(14)
    ensures PadCmd(EraseCmd()) == [0xF2, 0x43, 0xFF, 0xFF, 0xFF, 0xFF] + Zeros(10)
    ensures var frames := [PadCmd(VersionCmd()), PadCmd(EnterSwdCmd()), PadCmd(ForceDebugCmd()),
                           PadCmd(HaltCmd()), PadCmd(ResetCmd()), PadCmd(EraseCmd())];
      forall i, j :: 0 <= i < j < |frames| ==> frames[i] != frames[j]
  {
    var frames := [PadCmd(VersionCmd()), PadCmd(EnterSwdCmd()), PadCmd(ForceDebugCmd()),
                   PadCmd(HaltCmd()), PadCmd(ResetCmd()), PadCmd(EraseCmd())];
    assert frames[0][0] == 0xF1;
    assert forall i :: 1 <= i < |frames| ==> frames[i][0] == 0xF2;
    assert [frames[1][1], frames[2][1], frames[3][1], frames[4][1], frames[5][1]] == [0x20, 0xA4, 0x02, 0x22, 0x43];
  }

  /**
   `setSWDFreq(freq)`: the frequency as a little-endian 32-bit field, which
   decodes back to `freq` modulo 2^32.
   */
  function SetFreqCmd(freq: int): (r: seq<byte>)
    ensures |r| == 6 && r[..2] == [DEBUG_COMMAND, DEBUG_APIV2_SWD_SET_FREQ]
    ensures DecodeLe32(r[2..]) == freq % TwoTo32
  {
    Le32RoundTrip(freq);
    var r := [DEBUG_COMMAND, DEBUG_APIV2_SWD_SET_FREQ] + Le32(freq);
    assert r[2..] == Le32(freq);
    r
  }

  /** The default 1.8 MHz goes out as 0x001B7740, least significant byte first. */
  lemma DefaultFreqFrame()
    ensures PadCmd(SetFreqCmd(DefaultSwdFreq))
         == [0xF2, 0x43, 0x40, 0x77, 0x1B, 0x00, 0, 0, 0, 0, 0, 0, 0, 0, 0, 0]
  {
    var r := SetFreqCmd(DefaultSwdFreq);
    assert r[2..] == Le32(DefaultSwdFreq);
  }

  /**
   Erase and set-frequency share the sub-opcode 0x43, so the erase command
   is byte for byte the frequency command for 0xFFFFFFFF (modulo 2^32), and
   for no other frequency.
   */
  lemma EraseIsSetFreq(freq: int)
    ensures EraseCmd() == SetFreqCmd(freq) <==> freq % TwoTo32 == 0xFFFF_FFFF
  {
    var r := SetFreqCmd(freq);
    assert Le32(0xFFFF_FFFF) == [0xFF, 0xFF, 0xFF, 0xFF];
    assert r == r[..2] + r[2..];
    assert EraseCmd() == r[..2] + Le32(0xFFFF_FFFF);
    Le32Injective(freq, 0xFFFF_FFFF);
    Le32OfDecode(r[2..]);
    assert r[2..] == Le32(freq);
  }

  // ---------------------------------------------------------------------------
  // Memory writes

  /** Data padded with zeros to whole 32-bit words: `ceil(n / 4) * 4` bytes, the data first. */
  function PadTo4(data: seq<byte>): (r: seq<byte>)
    ensures |r| % 4 == 0 && |data| <= |r| < |data| + 4
    ensures |r| == 4 * PieceCount(|data|, 4)
    ensures r[..|data|] == data
    ensures forall i :: |data| <= i < |r| ==> r[i] == 0
  {
    if |data| % 4 == 0 then data else data + Zeros(4 - |data| % 4)
  }

  /** The write command for one sub-chunk: address and byte count, both little-endian. */
  function WriteHeader(address: int, count: nat): (r: seq<byte>)
    ensures |r| == 10
  {
    [DEBUG_COMMAND, DEBUG_WRITE_MEM_32BIT] + Le32(address) + Le32(count)
  }

  /**
   The sub-chunks of a write: the padded data in pieces of at most 128
   bytes, piece `k` at `address + 128 * k`, every piece a positive multiple
   of four bytes long, all of them together the padded data.
   */
  function SubChunks(address: int, data: seq<byte>): (subs: seq<Chunk>)
    ensures |subs| == PieceCount(|PadTo4(data)|, SubChunkSize)
    ensures forall k :: 0 <= k < |subs| ==> subs[k].address == address + SubChunkSize * k
    ensures forall k :: 0 <= k < |subs| ==> 0 < |subs[k].data| <= SubChunkSize
    ensures forall k :: 0 <= k < |subs| ==> |subs[k].data| % 4 == 0
    ensures Flatten(Datas(subs)) == PadTo4(data)
  {
    var padded := PadTo4(data);
    var subs := Plan(padded, address, SubChunkSize);
    forall k | 0 <= k < |subs|
      ensures |subs[k].data| % 4 == 0
    {
      assert subs[k].data == Datas(subs)[k] == Split(padded, SubChunkSize)[k];
      SplitKeepsMultiple(padded, SubChunkSize, 4, k);
    }
    subs
  }

  /** Every command as its padded frame. */
  function PadEach(cmds: seq<seq<byte>>): (r: seq<seq<byte>>)
    ensures |r| == |cmds|
    ensures forall i :: 0 <= i < |cmds| ==> r[i] == PadCmd(cmds[i])
  {
    seq(|cmds|, i requires 0 <= i < |cmds| => PadCmd(cmds[i]))
  }

  /** The data packets of a sub-chunk as they go out, each padded to 16 bytes. */
  function Packets(d: seq<byte>): seq<seq<byte>>
  {
    PadEach(Split(d, PacketSize))
  }

  /** One sub-chunk on the wire: its padded write command, then its packets. */
  function SubChunkFrames(c: Chunk): seq<seq<byte>>
  {
    [PadCmd(WriteHeader(c.address, |c.data|))] + Packets(c.data)
  }

  /** All sub-chunks on the wire, in order. */
  function WriteFrames(subs: seq<Chunk>): seq<seq<byte>>
  {
    if |subs| == 0 then [] else SubChunkFrames(subs[0]) + WriteFrames(subs[1..])
  }

  /** The inner loop: one transfer per packet. */
  function SendPackets(p: Probe, pieces: seq<seq<byte>>): (r: Probe)
    ensures r.replies == p.replies
    ensures r.frames == p.frames + PadEach(pieces)
    decreases |pieces|
  {
    if |pieces| == 0 then p
    else
      var q := Send(p, pieces[0]);
      var r := SendPackets(q, pieces[1..]);
      assert PadEach(pieces) == [PadCmd(pieces[0])] + PadEach(pieces[1..]);
      ConcatAssoc(p.frames, [PadCmd(pieces[0])], PadEach(pieces[1..]));
      r
  }

  /** The outer loop: each sub-chunk's write command, then its packets. */
  function SendSubChunks(p: Probe, subs: seq<Chunk>): (r: Probe)
    ensures r.replies == p.replies
    ensures r.frames == p.frames + WriteFrames(subs)
    decreases |subs|
  {
    if |subs| == 0 then p
    else
      var c := subs[0];
      var h := PadCmd(WriteHeader(c.address, |c.data|));
      var q := SendPackets(Send(p, WriteHeader(c.address, |c.data|)), Split(c.data, PacketSize));
      var r := SendSubChunks(q, subs[1..]);
      ConcatAssoc(p.frames, [h], Packets(c.data));
      ConcatAssoc(p.frames, SubChunkFrames(c), WriteFrames(subs[1..]));
      r
  }

  /** `writeMemory(address, data)`: the padded data, sub-chunk by sub-chunk. */
  function WriteMemory(p: Probe, address: int, data: seq<byte>): (r: Probe)
    ensures r.replies == p.replies
    ensures r.frames == p.frames + WriteFrames(SubChunks(address, data))
  {
    SendSubChunks(p, SubChunks(address, data))
  }

  // ---------------------------------------------------------------------------
  // The probe's side of a memory write

  /** The data of a sub-chunk: the first `count` bytes of the 16-byte packets from `frames[from]` on. */
  function PacketData(frames: seq<seq<byte>>, from: nat, count: nat): (d: seq<byte>)
    requires from + PieceCount(count, PacketSize) <= |frames|
    requires forall k :: from <= k < from + PieceCount(count, PacketSize) ==> |frames[k]| == PacketSize
    ensures |d| == count
  {
    seq(count, j requires 0 <= j < count => PacketIndex(j, count); frames[from + j / PacketSize][j % PacketSize])
  }

  lemma PacketIndex(j: nat, count: nat)
    requires j < count
    ensures j / PacketSize < PieceCount(count, PacketSize)
  {
    DivShift(count - 1, PacketSize);
    assert j / PacketSize <= (count - 1) / PacketSize;
  }

  /**
   What the probe makes of a stream of frames: a write command (0xF2 0x0D,
   address, count) followed by ceil(count / 16) packets of 16 bytes each,
   repeated until the stream ends; anything else is malformed.
   */
  function ParseWrites(frames: seq<seq<byte>>): Option<seq<Chunk>>
    decreases |frames|
  {
    if |frames| == 0 then Some([])
    else
      var h := frames[0];
      if |h| != 16 || h[0] != DEBUG_COMMAND || h[1] != DEBUG_WRITE_MEM_32BIT then None
      else
        var count := DecodeLe32(h[6..10]);
        var n := PieceCount(count, PacketSize);
        if |frames| < 1 + n || exists k :: 1 <= k <= n && |frames[k]| != PacketSize then None
        else
          var c := Chunk(DecodeLe32(h[2..6]), PacketData(frames, 1, count));
          match ParseWrites(frames[1 + n..])
          case None => None
          case Some(rest) => Some([c] + rest)
  }

  /** A chunk whose address is reduced to the 32 bits that go on the wire. */
  function Wrapped(c: Chunk): Chunk
  {
    Chunk(c.address % TwoTo32, c.data)
  }

  function WrappedAll(cs: seq<Chunk>): (r: seq<Chunk>)
    ensures |r| == |cs|
    ensures forall k :: 0 <= k < |cs| ==> r[k] == Wrapped(cs[k])
  {
    seq(|cs|, k requires 0 <= k < |cs| => Wrapped(cs[k]))
  }

  /** The packets of `d` carry exactly `d`. */
  lemma PacketsCarry(d: seq<byte>)
    ensures |Packets(d)| == PieceCount(|d|, PacketSize)
    ensures forall k :: 0 <= k < |Packets(d)| ==> |Packets(d)[k]| == PacketSize
    ensures PacketData(Packets(d), 0, |d|) == d
  {
    PacketsShape(d);
    var e := PacketData(Packets(d), 0, |d|);
    forall j | 0 <= j < |d|
      ensures e[j] == d[j]
    {
      PacketByte(d, j);
    }
  }

  /** There are ceil(n / 16) packets of 16 bytes each. */
  lemma PacketsShape(d: seq<byte>)
    ensures |Packets(d)| == PieceCount(|d|, PacketSize)
    ensures forall k :: 0 <= k < |Packets(d)| ==> |Packets(d)[k]| == PacketSize
  {
    SplitCount(d, PacketSize);
  }

  /** Byte `j` of the data sits at offset `j % 16` of packet `j / 16`. */
  lemma PacketByte(d: seq<byte>, j: nat)
    requires j < |d|
    requires |Packets(d)| == PieceCount(|d|, PacketSize)
    requires forall k :: 0 <= k < |Packets(d)| ==> |Packets(d)[k]| == PacketSize
    ensures PacketData(Packets(d), 0, |d|)[j] == d[j]
  {
    var pieces := Split(d, PacketSize);
    var k := j / PacketSize;
    PacketIndex(j, |d|);
    SplitCount(d, PacketSize);
    SplitPiece(d, PacketSize, k);
    assert j == PacketSize * k + j % PacketSize;
    assert j % PacketSize < |pieces[k]|;
    assert PadCmd(pieces[k])[j % PacketSize] == pieces[k][j % PacketSize];
  }

  /** One step of the probe's parse, on a well-formed write command and its packets. */
  lemma ParseStep(frames: seq<seq<byte>>, n: nat)
    requires |frames| > 0 && |frames[0]| == 16
    requires frames[0][0] == DEBUG_COMMAND && frames[0][1] == DEBUG_WRITE_MEM_32BIT
    requires n == PieceCount(DecodeLe32(frames[0][6..10]), PacketSize) && 1 + n <= |frames|
    requires forall k :: 1 <= k <= n ==> |frames[k]| == PacketSize
    ensures var c := Chunk(DecodeLe32(frames[0][2..6]), PacketData(frames, 1, DecodeLe32(frames[0][6..10])));
      ParseWrites(frames)
         == match ParseWrites(frames[1 + n..])
            case None => None
            case Some(cs) => Some([c] + cs)
  {
  }

  /** The padded write command carries the address modulo 2^32 and the byte count. */
  lemma HeaderFields(address: int, count: nat)
    requires count < TwoTo32
    ensures var h := PadCmd(WriteHeader(address, count));
      && |h| == 16 && h[0] == DEBUG_COMMAND && h[1] == DEBUG_WRITE_MEM_32BIT
      && DecodeLe32(h[2..6]) == address % TwoTo32
      && DecodeLe32(h[6..10]) == count
  {
    var h := PadCmd(WriteHeader(address, count));
    HeaderSlices(address, count);
    FieldDecodes(h, 2, address);
    FieldDecodes(h, 6, count);
  }

  /** Four octets written by `Le32` read back as the value modulo 2^32. */
  lemma FieldDecodes(h: seq<byte>, from: nat, x: int)
    requires from + 4 <= |h| && h[from..from + 4] == Le32(x)
    ensures DecodeLe32(h[from..from + 4]) == x % TwoTo32
  {
    Le32RoundTrip(x);
  }

  /** Where the fields sit in the padded write command. */
  lemma HeaderSlices(address: int, count: nat)
    ensures var h := PadCmd(WriteHeader(address, count));
      && |h| == 16 && h[0] == DEBUG_COMMAND && h[1] == DEBUG_WRITE_MEM_32BIT
      && h[2..6] == Le32(address) && h[6..10] == Le32(count)
  {
    var header := WriteHeader(address, count);
    var h := PadCmd(header);
    assert h[..10] == header;
    assert header[2..6] == Le32(address);
    assert header[6..10] == Le32(count);
    assert h[2..6] == header[2..6];
    assert h[6..10] == header[6..10];
  }

  /** Packet data read at an offset is the packet data of the shifted frames. */
  lemma PacketDataShift(frames: seq<seq<byte>>, packets: seq<seq<byte>>, count: nat)
    requires |packets| == PieceCount(count, PacketSize) && 1 + |packets| <= |frames|
    requires forall k :: 0 <= k < |packets| ==> frames[1 + k] == packets[k] && |packets[k]| == PacketSize
    ensures forall k :: 1 <= k <= |packets| ==> |frames[k]| == PacketSize
    ensures PacketData(frames, 1, count) == PacketData(packets, 0, count)
  {
    forall k | 1 <= k <= |packets|
      ensures |frames[k]| == PacketSize
    {
      assert frames[1 + (k - 1)] == packets[k - 1];
    }
    forall j | 0 <= j < count
      ensures PacketData(frames, 1, count)[j] == PacketData(packets, 0, count)[j]
    {
      PacketIndex(j, count);
    }
  }

  /** The probe takes one sub-chunk off the front of the stream. */
  lemma ParseSubChunk(c: Chunk, rest: seq<seq<byte>>)
    requires |c.data| < TwoTo32
    ensures ParseWrites(SubChunkFrames(c) + rest)
         == match ParseWrites(rest)
            case None => None
            case Some(cs) => Some([Wrapped(c)] + cs)
  {
    var frames := SubChunkFrames(c) + rest;
    HeaderFields(c.address, |c.data|);
    PacketsCarry(c.data);
    var packets := Packets(c.data);
    var n := |packets|;
    assert frames[0] == PadCmd(WriteHeader(c.address, |c.data|));
    assert frames[1 + n..] == rest;
    assert forall k :: 0 <= k < n ==> frames[1 + k] == packets[k];
    PacketDataShift(frames, packets, |c.data|);
    ParseStep(frames, n);
  }

  /** The probe recovers every sub-chunk, with its address modulo 2^32. */
  lemma {:induction false} ParseWriteFrames(subs: seq<Chunk>)
    requires forall k :: 0 <= k < |subs| ==> |subs[k].data| < TwoTo32
    ensures ParseWrites(WriteFrames(subs)) == Some(WrappedAll(subs))
    decreases |subs|
  {
    if |subs| > 0 {
      assert forall k :: 0 <= k < |subs[1..]| ==> subs[1..][k] == subs[k + 1];
      ParseWriteFrames(subs[1..]);
      ParseWriteFramesStep(subs);
    } else {
      assert WrappedAll(subs) == [];
    }
  }

  /** The first sub-chunk parsed, followed by what the rest parses to. */
  lemma ParseWriteFramesStep(subs: seq<Chunk>)
    requires |subs| > 0 && |subs[0].data| < TwoTo32
    requires ParseWrites(WriteFrames(subs[1..])) == Some(WrappedAll(subs[1..]))
    ensures ParseWrites(WriteFrames(subs)) == Some(WrappedAll(subs))
  {
    assert WriteFrames(subs) == SubChunkFrames(subs[0]) + WriteFrames(subs[1..]);
    ParseSubChunk(subs[0], WriteFrames(subs[1..]));
    WrappedAllCons(subs);
  }

  lemma WrappedAllCons(subs: seq<Chunk>)
    requires |subs| > 0
    ensures WrappedAll(subs) == [Wrapped(subs[0])] + WrappedAll(subs[1..])
  {
    assert [Wrapped(subs[0])] + WrappedAll(subs[1..]) == WrappedAll(subs);
  }

  /**
   What a memory write sends, read back by the probe: sub-chunk `k` at
   `address + 128 * k` modulo 2^32, the sub-chunks together the data padded
   to whole words, and so the data itself first.
   */
  lemma WriteMemoryRoundTrip(p: Probe, address: int, data: seq<byte>)
    ensures var parsed := ParseWrites(WriteMemory(p, address, data).frames[|p.frames|..]);
      && parsed.Some?
      && |parsed.value| == PieceCount(|PadTo4(data)|, SubChunkSize)
      && (forall k :: 0 <= k < |parsed.value| ==> parsed.value[k].address == (address + SubChunkSize * k) % TwoTo32)
      && (forall k :: 0 <= k < |parsed.value| ==> 0 < |parsed.value[k].data| <= SubChunkSize)
      && Flatten(Datas(parsed.value)) == PadTo4(data)
      && Flatten(Datas(parsed.value))[..|data|] == data
  {
    WriteMemoryParses(p, address, data);
    WrappedSubChunks(address, data);
  }

  /** The probe parses a memory write's frames back into its sub-chunks, addresses modulo 2^32. */
  lemma WriteMemoryParses(p: Probe, address: int, data: seq<byte>)
    ensures ParseWrites(WriteMemory(p, address, data).frames[|p.frames|..]) == Some(WrappedAll(SubChunks(address, data)))
  {
    var subs := SubChunks(address, data);
    assert WriteMemory(p, address, data).frames[|p.frames|..] == WriteFrames(subs);
    ParseWriteFrames(subs);
  }

  /** Wrapping the addresses keeps the sub-chunks' count, sizes and data. */
  lemma WrappedSubChunks(address: int, data: seq<byte>)
    ensures var w := WrappedAll(SubChunks(address, data));
      && |w| == PieceCount(|PadTo4(data)|, SubChunkSize)
      && (forall k :: 0 <= k < |w| ==> w[k].address == (address + SubChunkSize * k) % TwoTo32)
      && (forall k :: 0 <= k < |w| ==> 0 < |w[k].data| <= SubChunkSize)
      && Flatten(Datas(w)) == PadTo4(data)
      && Flatten(Datas(w))[..|data|] == data
  {
    var subs := SubChunks(address, data);
    assert Datas(WrappedAll(subs)) == Datas(subs);
  }

  // ---------------------------------------------------------------------------
  // Download

  /** What one outer chunk's memory write sends. */
  function ChunkFrames(c: Chunk): seq<seq<byte>>
  {
    WriteFrames(SubChunks(c.address, c.data))
  }

  /** One outer chunk written with `writeMemory`; transfers out do not fail. */
  function WriteChunk(p: Probe, c: Chunk): (Result<()>, Probe)
  {
    (Ok(()), WriteMemory(p, c.address, c.data))
  }

  /** The set-up commands after the version request, in the order they are sent. */
  function Preamble(swdFreq: int): seq<seq<byte>>
  {
    [PadCmd(EnterSwdCmd()), PadCmd(ForceDebugCmd()), PadCmd(SetFreqCmd(swdFreq)), PadCmd(HaltCmd()), PadCmd(EraseCmd())]
  }

  function SentFrames(p: Probe): seq<seq<byte>> { p.frames }

  /**
   Steps 1 to 5 of `downloadBin`: the version request and its reply, then
   the set-up commands. Without a reply nothing after the request is sent.
   */
  function Prepare(p: Probe, swdFreq: int): (r: ProbeStep<()>)
    ensures r.result.Ok? <==> |p.replies| > 0
    ensures r.result.Err? ==> r == ProbeStep(Err(Disconnected), Send(p, VersionCmd()))
    ensures r.result.Ok? ==> r.probe.replies == p.replies[1..]
    ensures r.result.Ok? ==> r.probe.frames == p.frames + [PadCmd(VersionCmd())] + Preamble(swdFreq)
  {
    var v := Receive(Send(p, VersionCmd()));
    if v.result.Err? then ProbeStep(Err(v.result.error), v.probe)
    else
      var q := Send(Send(Send(Send(Send(v.probe, EnterSwdCmd()), ForceDebugCmd()), SetFreqCmd(swdFreq)), HaltCmd()), EraseCmd());
      ProbeStep(Ok(()), q)
  }

  /**
   Steps 6 and 7 of `downloadBin`: the chunk writes with their reports, and
   the reset only when every chunk was written and reported.
   */
  function Flash(q: Probe, data: seq<byte>, baseAddress: int, abort: (nat, nat) -> bool): (r: Run<Probe>)
    ensures Follows(r.log, ImageSchedule(data, baseAddress), abort)
    ensures r.result.Ok? <==> Completes(r.log, ImageSchedule(data, baseAddress), abort)
    ensures r.result.Err? ==> r.result.error == Cancelled
    ensures r.link.frames == q.frames + Emitted(r.log, ChunkFrames) + (if r.result.Ok? then [PadCmd(ResetCmd())] else [])
  {
    var plan := Plan(data, baseAddress, ChunkSize);
    ChunksSent(q, plan, |data|, abort);
    var run := Drive(q, WriteChunk, abort, plan, 0, |data|);
    if run.result.Err? then run
    else Run(Ok(()), Send(run.link, ResetCmd()), run.log)
  }

  /** The chunk loop sends exactly what its writes emit, and only the callback can stop it. */
  lemma ChunksSent(q: Probe, plan: seq<Chunk>, total: nat, abort: (nat, nat) -> bool)
    ensures var r := Drive(q, WriteChunk, abort, plan, 0, total);
      && r.link.frames == q.frames + Emitted(r.log, ChunkFrames)
      && (r.result.Err? ==> r.result.error == Cancelled)
  {
    WriteChunkEmits();
    DriveTrace(q, WriteChunk, abort, plan, 0, total, SentFrames, ChunkFrames);
    DriveErrors(q, WriteChunk, abort, plan, 0, total, e => false);
  }

  /** A memory write never fails and sends exactly the chunk's frames. */
  lemma WriteChunkEmits()
    ensures forall l: Probe, c: Chunk :: SentFrames(WriteChunk(l, c).1) == SentFrames(l) + ChunkFrames(c)
    ensures forall l: Probe, c: Chunk :: WriteChunk(l, c).0.Ok?
  {
  }

  /**
   `downloadBin(data, baseAddress, progressCallback, swdFreq)`. A failed
   version request ends it before anything else is sent; otherwise the
   set-up commands go out, then the 256-byte chunks, and the reset command
   only once every chunk was written and reported.
   */
  function DownloadBin(p: Probe, data: seq<byte>, baseAddress: int, abort: (nat, nat) -> bool, swdFreq: int): (r: Run<Probe>)
    ensures |p.replies| == 0 ==> r == Run(Err(Disconnected), Send(p, VersionCmd()), [])
    ensures Follows(r.log, ImageSchedule(data, baseAddress), abort)
    ensures r.result.Ok? <==> |p.replies| > 0 && Completes(r.log, ImageSchedule(data, baseAddress), abort)
    ensures r.result.Err? ==> r.result.error == Disconnected || r.result.error == Cancelled
    ensures |p.replies| > 0 ==>
      r.link.frames == p.frames + [PadCmd(VersionCmd())] + Preamble(swdFreq)
                       + Emitted(r.log, ChunkFrames) + (if r.result.Ok? then [PadCmd(ResetCmd())] else [])
  {
    var s := Prepare(p, swdFreq);
    if s.result.Err? then Run(Err(s.result.error), s.probe, [])
    else Flash(s.probe, data, baseAddress, abort)
  }

  /** With a callback that never aborts, every chunk is written and the reset follows the last one. */
  lemma FlashCompletes(q: Probe, data: seq<byte>, baseAddress: int, abort: (nat, nat) -> bool)
    requires forall w: nat, t: nat :: !abort(w, t)
    ensures var plan := Plan(data, baseAddress, ChunkSize);
      var r := Flash(q, data, baseAddress, abort);
      && r.result.Ok?
      && r.log == Schedule(plan, 0, |data|)
      && r.link.frames == q.frames + Flatten(EmitAll(plan, ChunkFrames)) + [PadCmd(ResetCmd())]
  {
    var plan := Plan(data, baseAddress, ChunkSize);
    FlashRuns(q, data, baseAddress, abort);
    EmittedSchedule(plan, 0, |data|, ChunkFrames);
  }

  /** With a callback that never aborts, the chunk loop runs its whole schedule. */
  lemma FlashRuns(q: Probe, data: seq<byte>, baseAddress: int, abort: (nat, nat) -> bool)
    requires forall w: nat, t: nat :: !abort(w, t)
    ensures var r := Flash(q, data, baseAddress, abort);
      r.result.Ok? && r.log == Schedule(Plan(data, baseAddress, ChunkSize), 0, |data|)
  {
    var plan := Plan(data, baseAddress, ChunkSize);
    ChunksRun(q, plan, |data|, abort);
    var run := Drive(q, WriteChunk, abort, plan, 0, |data|);
    assert Flash(q, data, baseAddress, abort) == Run(Ok(()), Send(run.link, ResetCmd()), run.log);
  }

  /** Writes that never fail and a callback that never aborts: the loop runs its whole schedule. */
  lemma ChunksRun(q: Probe, plan: seq<Chunk>, total: nat, abort: (nat, nat) -> bool)
    requires forall w: nat, t: nat :: !abort(w, t)
    ensures Drive(q, WriteChunk, abort, plan, 0, total).result.Ok?
    ensures Drive(q, WriteChunk, abort, plan, 0, total).log == Schedule(plan, 0, total)
  {
    NeverAborts(abort, plan, 0, total);
    WriteChunkEmits();
    DriveWithoutFailures(q, WriteChunk, abort, plan, 0, total);
  }

  /**
   A probe that answers the version request and a callback that never
   aborts: every chunk is written, and the frames are the version request,
   the set-up commands, the chunks' writes in address order and the reset.
   */
  lemma DownloadCompletes(p: Probe, data: seq<byte>, baseAddress: int, abort: (nat, nat) -> bool, swdFreq: int)
    requires |p.replies| > 0
    requires forall w: nat, t: nat :: !abort(w, t)
    ensures var plan := Plan(data, baseAddress, ChunkSize);
      var r := DownloadBin(p, data, baseAddress, abort, swdFreq);
      && r.result.Ok?
      && r.log == Schedule(plan, 0, |data|)
      && r.link.frames == p.frames + [PadCmd(VersionCmd())] + Preamble(swdFreq)
                          + Flatten(EmitAll(plan, ChunkFrames)) + [PadCmd(ResetCmd())]
  {
    FlashCompletes(Prepare(p, swdFreq).probe, data, baseAddress, abort);
  }
}
