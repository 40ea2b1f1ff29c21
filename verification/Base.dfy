/** Machine words, options and results shared by every module. */
module Base {

  datatype Option<+T> = None | Some(value: T)

  datatype Result<+T, +E> = Ok(value: T) | Err(error: E)

  const TWO_32: int := 0x1_0000_0000
  const TWO_64: int := 0x1_0000_0000_0000_0000

  type byte = x: int | 0 <= x < 0x100
  type u16 = x: int | 0 <= x < 0x1_0000
  type u32 = x: int | 0 <= x < TWO_32
  type u64 = x: int | 0 <= x < TWO_64

  /** A Unix time to which any `u32` number of seconds can be added without leaving `u64`. */
  type Instant = x: int | 0 <= x <= TWO_64 - TWO_32

  /** A 6-byte Ethernet address. */
  type Mac = s: seq<byte> | |s| == 6 witness [0, 0, 0, 0, 0, 0]

  /** The four octets of a word in network order: the text form of an address and its wire form. */
  function Octets(v: u32): (b: seq<byte>)
    ensures |b| == 4
    ensures FromOctets(b) == v
  {
    [v / 0x1_0000 / 0x100, v / 0x1_0000 % 0x100, v % 0x1_0000 / 0x100, v % 0x1_0000 % 0x100]
  }

  function FromOctets(b: seq<byte>): u32
    requires |b| == 4
  {
    b[0] as int * 0x100_0000 + b[1] as int * 0x1_0000 + b[2] as int * 0x100 + b[3]
  }

  function Octets16(v: u16): (b: seq<byte>)
    ensures |b| == 2
    ensures FromOctets16(b) == v
  {
    [v / 0x100, v % 0x100]
  }

  function FromOctets16(b: seq<byte>): u16
    requires |b| == 2
  {
    b[0] as int * 0x100 + b[1]
  }
}
