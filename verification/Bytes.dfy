/**
 The machine types shared by every component: bytes and words that are taken apart bit by bit are
 bit-vectors, counters and sizes are integers with their width written out.
 */
module Bytes {
  type byte = bv8
  type word = bv32

  type uint16 = x: int | 0 <= x < 0x1_0000
  type uint32 = x: int | 0 <= x < 0x1_0000_0000
  type uint64 = x: int | 0 <= x < 0x1_0000_0000_0000_0000

  function Min(a: nat, b: nat): (r: nat)
    ensures r <= a && r <= b && (r == a || r == b)
  {
    if a < b then a else b
  }

  /** Subtraction in 32 bits. */
  function Minus32(a: uint32, b: nat): uint32 {
    (a - b) % 0x1_0000_0000
  }

  lemma SmallRemainder(n: nat)
    requires n < 0x1_0000_0000
    ensures n % 0x1_0000_0000 == n
  {
  }

  /** The concatenation of a sequence of sequences. */
  function Flatten<T>(parts: seq<seq<T>>): seq<T> {
    if parts == [] then [] else parts[0] + Flatten(parts[1..])
  }
}
