/**
 The error kinds the two flashers and the HEX decoder can end with, and the
 result type every operation returns instead of throwing.
 */
module Results {
  import opened Bytes

  datatype Error =
    | Timeout                       // no byte arrived within the read deadline
    | Disconnected                  // the serial reader reported end of stream, or the probe went silent
    | Nack                          // 0x1F where an ACK was required
    | Unexpected(got: byte)         // any other byte where ACK (or NACK) was required
    | TooLarge                      // a write of more than 256 bytes
    | HandshakeFailed(last: Error)  // every handshake attempt failed
    | Fatal(cause: Error)           // the handshake stopped retrying early
    | GetIdFailed(last: Error)      // every Get ID attempt failed
    | Cancelled                     // the progress callback aborted the download
    | NoData                        // HEX text without a single data byte

  datatype Result<+T> = Ok(value: T) | Err(error: Error)

  datatype Option<+T> = None | Some(value: T)
}
