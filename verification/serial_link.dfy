/**
 The serial port as the USART bootloader client sees it, with time taken out:
 a script of what successive single-byte reads observe, and the trace of every
 byte written so far.
 */
module SerialLink {
  import opened Bytes
  import opened Results

  /** What one `readByte` call observes. */
  datatype Event =
    | Arrive(b: byte)   // a byte is available
    | Silence           // nothing arrived before the deadline
    | Hangup            // the reader reports the stream as done

  datatype Link = Link(script: seq<Event>, sent: seq<byte>)

  /** A result together with the link after the operation. */
  datatype Step<+T> = Step(result: Result<T>, link: Link)

  /** What the next read observes: past the end of the script nothing arrives. */
  function Head(script: seq<Event>): Event
  {
    if |script| == 0 then Silence else script[0]
  }

  /** What the `i`-th read from now observes, if none of the earlier ones hung up. */
  function Pending(script: seq<Event>, i: nat): Event
  {
    if i < |script| then script[i] else Silence
  }

  /** The script after one read that did not hang up. */
  function Rest(script: seq<Event>): (r: seq<Event>)
    ensures forall i: nat :: Pending(r, i) == Pending(script, i + 1)
  {
    if |script| == 0 then [] else script[1..]
  }

  /** `sendByte` / `sendBytes`: the bytes are appended to the trace; writes do not fail. */
  function Send(l: Link, bytes: seq<byte>): (r: Link)
    ensures r.script == l.script
    ensures r.sent == l.sent + bytes
  {
    l.(sent := l.sent + bytes)
  }

  /**
   `readByte`: pop the next byte, or time out, or report the disconnection.
   A hang-up is not consumed: a reader that is done stays done.
   */
  function ReadByte(l: Link): (r: Step<byte>)
    ensures r.link.sent == l.sent
    ensures r.result.Ok? <==> Head(l.script).Arrive?
    ensures r.result.Ok? ==> r.result.value == Head(l.script).b && r.link.script == l.script[1..]
    ensures r.result == Err(Timeout) <==> Head(l.script) == Silence
    ensures r.result == Err(Disconnected) <==> Head(l.script) == Hangup
    ensures Head(l.script) == Silence ==> r.link.script == Rest(l.script)
    ensures Head(l.script) == Hangup ==> r.link == l
  {
    if |l.script| == 0 then Step(Err(Timeout), l)
    else match l.script[0]
      case Arrive(b) => Step(Ok(b), l.(script := l.script[1..]))
      case Silence => Step(Err(Timeout), l.(script := l.script[1..]))
      case Hangup => Step(Err(Disconnected), l)
  }

  /** The next `|bs|` reads each deliver a byte, namely `bs` in order. */
  predicate Delivers(script: seq<Event>, bs: seq<byte>)
  {
    |bs| <= |script| && forall i :: 0 <= i < |bs| ==> script[i] == Arrive(bs[i])
  }

  /** `readBytes(count)`: `count` reads in a row; the first failing read ends it. */
  function ReadBytes(l: Link, count: nat): (r: Step<seq<byte>>)
    ensures r.link.sent == l.sent
    ensures r.result.Ok? <==> count <= |l.script| && forall i :: 0 <= i < count ==> l.script[i].Arrive?
    ensures r.result.Ok? ==> |r.result.value| == count && Delivers(l.script, r.result.value)
    ensures r.result.Ok? ==> r.link.script == l.script[count..]
    decreases count
  {
    if count == 0 then Step(Ok([]), l)
    else
      var first := ReadByte(l);
      if first.result.Err? then Step(Err(first.result.error), first.link)
      else
        var more := ReadBytes(first.link, count - 1);
        if more.result.Err? then Step(Err(more.result.error), more.link)
        else Step(Ok([first.result.value] + more.result.value), more.link)
  }
}
