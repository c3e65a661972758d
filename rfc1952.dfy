/**
 The member-header identification bytes of the GZIP file format, section 2.3.1 of
 RFC 1952: every member starts with ID1 = 31 (0x1f) and ID2 = 139 (0x8b).
 Octets are unsigned here, as the RFC writes them.
 */
module Rfc1952 {

  /** An unsigned 8-bit value, 0 to 255. */
  type Octet = x: int | 0 <= x < 256

  const ID1: Octet := 0x1f
  const ID2: Octet := 0x8b

  /** The octets start with the two identification bytes of a GZIP member header. */
  predicate HasMemberId(octets: seq<Octet>) {
    |octets| >= 2 && octets[0] == ID1 && octets[1] == ID2
  }
}
