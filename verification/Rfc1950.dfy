/** What RFC 1950 says of the header and the checksum of a zlib stream. */
module Rfc1950 {
  import opened Bits
  import opened Primes

  // ----- Checksum (section 8.2)

  function Total(data: seq<byte>): nat {
    if data == [] then 0 else data[0] + Total(data[1..])
  }

  /** Each byte as often as there are bytes from it on. */
  function Weighted(data: seq<byte>): nat {
    if data == [] then 0 else |data| * data[0] + Weighted(data[1..])
  }

  /** The largest prime below 65536. */
  ghost predicate AdlerBase(p: nat) {
    Prime(p) && p < 65536 && forall q: nat :: p < q < 65536 ==> !Prime(q)
  }

  /** The sum of all bytes and one in the low half, the sum of all sums on the way in the
      high half, both modulo the base. */
  ghost predicate IsAdler(data: seq<byte>, v: nat) {
    exists p: nat :: AdlerBy(data, v, p)
  }

  ghost predicate AdlerBy(data: seq<byte>, v: nat, p: nat) {
    AdlerBase(p) && v == 65536 * ((|data| + Weighted(data)) % p) + (1 + Total(data)) % p
  }

  // ----- Header and trailer (section 2.2)

  /** Deflate with a window of at most 32768 bytes, any level, no dictionary, and check bits
      that make the two bytes a multiple of 31. */
  predicate GoodHeader(cmf: byte, flg: byte) {
    exists cinfo, flevel, fcheck | 0 <= cinfo <= 7 && 0 <= flevel <= 3 && 0 <= fcheck <= 31 ::
      IsHeader(cmf, flg, cinfo, flevel, fcheck)
  }

  predicate IsHeader(cmf: byte, flg: byte, cinfo: int, flevel: int, fcheck: int) {
    cmf == 16 * cinfo + 8 && flg == 64 * flevel + fcheck && (256 * (cmf as nat) + flg) % 31 == 0
  }

  /** Four bytes, the highest one first. */
  predicate IsTrailer(b: seq<byte>, v: nat) {
    |b| == 4 && v == 0x1000000 * (b[0] as nat) + 0x10000 * (b[1] as nat) + 0x100 * (b[2] as nat) + b[3]
  }
}
