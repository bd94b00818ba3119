/** Unsigned machine integers, as ranges of mathematical ones. */
module Bytes {
  type Byte = x: int | 0 <= x < 0x100
  type Word = x: int | 0 <= x < 0x1_0000
  type UInt32 = x: int | 0 <= x < 0x1_0000_0000

  const TWO_32 := 0x1_0000_0000

  /** What a memcpy or memmove of data to offset at leaves in a buffer. */
  function Overwrite(buf: seq<Byte>, at: int, data: seq<Byte>): (r: seq<Byte>)
    requires 0 <= at && at + |data| <= |buf|
    ensures |r| == |buf|
  {
    buf[..at] + data + buf[at + |data|..]
  }

  lemma OverwriteSlice(buf: seq<Byte>, at: int, data: seq<Byte>, lo: int, hi: int)
    requires 0 <= at && at + |data| <= |buf| && 0 <= lo <= hi <= |buf|
    ensures lo == at && hi == at + |data| ==> Overwrite(buf, at, data)[lo..hi] == data
    ensures hi <= at || at + |data| <= lo ==> Overwrite(buf, at, data)[lo..hi] == buf[lo..hi]
  {
  }
}
