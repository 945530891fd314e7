/** Machine integers of the widths the capture formats use, and the
    little-endian 16-bit reading and writing the netfilter-log header needs. */
module Bytes {
  newtype uint8 = x: int | 0 <= x < 0x100
  newtype uint16 = x: int | 0 <= x < 0x1_0000
  newtype uint32 = x: int | 0 <= x < 0x1_0000_0000

  /** The value of the byte pair `lo, hi` read little-endian (nom's `le_u16`). */
  function LeU16Of(lo: uint8, hi: uint8): uint16
  {
    (lo as int + 0x100 * hi as int) as uint16
  }

  /** The two bytes that store `x` little-endian. */
  function LeBytes16(x: uint16): (r: seq<uint8>)
    ensures |r| == 2 && LeU16Of(r[0], r[1]) == x
  {
    [(x % 0x100) as uint8, (x / 0x100) as uint8]
  }

  /** Reading a pair and writing the value back gives the same pair. */
  lemma LeBytes16Of(lo: uint8, hi: uint8)
    ensures LeBytes16(LeU16Of(lo, hi)) == [lo, hi]
  {
  }
}

/** The closed set of fatal error kinds and the failure-compatible wrappers
    used in place of the source's panics. */
module Results {
  datatype Error =
    | Incomplete            // input ended inside a field, a value or padding
    | LengthUnderflow       // a netfilter-log record length below 4
    | NoPayloadAttribute    // no netfilter-log record of the payload type
    | UnsupportedLinkType   // the capture's link type has no demux
    | ShortFrame            // a frame shorter than its fixed link-layer header
    | NotIpv4               // the IP-header accessor could not be built
    | UnknownParser         // the registry has no decoder of that name
    | ExtraBytesUnderflow   // trimming would subtract past zero

  datatype Option<+T> = None | Some(value: T)

  datatype Result<+T> = Ok(value: T) | Err(error: Error) {
    predicate IsFailure() { Err? }

    function PropagateFailure<U>(): Result<U>
      requires Err?
    {
      Err(error)
    }

    function Extract(): T
      requires Ok?
    {
      value
    }
  }
}
