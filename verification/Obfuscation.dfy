/**
 The position-dependent byte obfuscation of cabinet data and its removal (lib/file.c).
 */
module Obfuscation {
  import opened Bytes

  function RotateRight8(x: byte, n: nat): byte
    requires n <= 8
  {
    (x >> n) | (x << (8 - n))
  }

  function RotateLeft8(x: byte, n: nat): byte
    requires n <= 8
  {
    (x << n) | (x >> (8 - n))
  }

  /** The 32-bit seed in force `offset` bytes after `seed`. */
  function SeedAt(seed: uint32, offset: nat): uint32 {
    (seed + offset) % 0x1_0000_0000
  }

  /** The amount that the position adds to a byte before it is rotated. */
  function Offset(seed: uint32): byte {
    (seed % 0x47) as byte
  }

  /** One plain byte, from one obfuscated byte and the seed in force at it. */
  function PlainByte(b: byte, seed: uint32): byte {
    RotateRight8(b ^ 0xd5, 2) - Offset(seed)
  }

  /** One obfuscated byte, from one plain byte and the seed in force at it. */
  function ObfuscatedByte(b: byte, seed: uint32): byte {
    RotateLeft8(b + Offset(seed), 2) ^ 0xd5
  }

  /** In numbers: a plain byte is, modulo 2^8, a quarter of the byte xor 0xd5, with the two bits that are cut
      off in front, less the remainder of the seed modulo 71; and the other way round. */
  lemma BytesInNumbers(b: byte, seed: uint32)
    ensures
      var offset, x := (seed % 71) as byte, b ^ 0xd5;
      PlainByte(b, seed) == x / 4 + 64 * (x % 4) - offset
    ensures
      var offset := (seed % 71) as byte;
      ObfuscatedByte(b, seed) == (4 * (b + offset) + (b + offset) / 64) ^ 0xd5
  {
    var offset := Offset(seed);
    QuarterTurns(b ^ 0xd5);
    QuarterTurns(b + offset);
  }

  lemma QuarterTurns(x: byte)
    ensures RotateRight8(x, 2) == x / 4 + 64 * (x % 4)
    ensures RotateLeft8(x, 2) == 4 * x + x / 64
  {
  }

  /** A stretch of data that starts where the seed is `seed`, in plain. */
  function Plain(s: seq<byte>, seed: uint32): (r: seq<byte>)
    ensures |r| == |s|
  {
    seq(|s|, i requires 0 <= i < |s| => PlainByte(s[i], SeedAt(seed, i)))
  }

  function Obfuscated(s: seq<byte>, seed: uint32): (r: seq<byte>)
    ensures |r| == |s|
  {
    seq(|s|, i requires 0 <= i < |s| => ObfuscatedByte(s[i], SeedAt(seed, i)))
  }

  /** `unshield_deobfuscate`: works in place and hands back the seed for the next byte. */
  method Deobfuscate(buffer: array<byte>, size: nat, seed: uint32) returns (seed': uint32)
    requires size <= buffer.Length
    modifies buffer
    ensures buffer[..size] == Plain(old(buffer[..size]), seed)
    ensures buffer[size..] == old(buffer[size..])
    ensures seed' == SeedAt(seed, size)
  {
    hide SeedAt, PlainByte;
    SeedAtAdd(seed, 0, 0);
    var tmpSeed := seed;
    for i := 0 to size
      invariant tmpSeed == SeedAt(seed, i)
      invariant buffer[..i] == Plain(old(buffer[..i]), seed)
      invariant buffer[i..] == old(buffer[i..])
    {
      buffer[i] := PlainByte(buffer[i], tmpSeed);
      tmpSeed := SeedAt(tmpSeed, 1);
      SeedAtAdd(seed, i, 1);
    }
    seed' := tmpSeed;
  }

  lemma ByteInverse(b: byte, seed: uint32)
    ensures ObfuscatedByte(PlainByte(b, seed), seed) == b
    ensures PlainByte(ObfuscatedByte(b, seed), seed) == b
  {
    hide Offset;
  }

  /** Removal of the obfuscation is a bijection on byte strings, for every starting seed. */
  lemma PlainIsBijection(s: seq<byte>, seed: uint32)
    ensures Obfuscated(Plain(s, seed), seed) == s
    ensures Plain(Obfuscated(s, seed), seed) == s
  {
    hide SeedAt, PlainByte, ObfuscatedByte;
    forall i | 0 <= i < |s|
      ensures Obfuscated(Plain(s, seed), seed)[i] == s[i]
      ensures Plain(Obfuscated(s, seed), seed)[i] == s[i]
    {
      ByteInverse(s[i], SeedAt(seed, i));
    }
  }

  lemma SeedAtAdd(seed: uint32, m: nat, n: nat)
    ensures SeedAt(seed, 0) == seed
    ensures SeedAt(SeedAt(seed, m), n) == SeedAt(seed, m + n)
  {
  }

  /** Any cut, with the seed carried across it, gives the same as doing the whole at once. */
  lemma PlainSplit(a: seq<byte>, b: seq<byte>, seed: uint32)
    ensures Plain(a + b, seed) == Plain(a, seed) + Plain(b, SeedAt(seed, |a|))
    ensures SeedAt(SeedAt(seed, |a|), |b|) == SeedAt(seed, |a + b|)
  {
    hide SeedAt, PlainByte;
    SeedAtAdd(seed, |a|, |b|);
    forall i | 0 <= i < |b|
      ensures SeedAt(SeedAt(seed, |a|), i) == SeedAt(seed, |a| + i)
    {
      SeedAtAdd(seed, |a|, i);
    }
  }

  /** Piecewise removal over any number of consecutive pieces. */
  function PlainPieces(pieces: seq<seq<byte>>, seed: uint32): seq<byte> {
    if pieces == [] then []
    else Plain(pieces[0], seed) + PlainPieces(pieces[1..], SeedAt(seed, |pieces[0]|))
  }

  lemma {:induction false} PlainPiecesIsPlain(pieces: seq<seq<byte>>, seed: uint32)
    ensures PlainPieces(pieces, seed) == Plain(Flatten(pieces), seed)
  {
    if pieces != [] {
      PlainSplit(pieces[0], Flatten(pieces[1..]), seed);
      PlainPiecesIsPlain(pieces[1..], SeedAt(seed, |pieces[0]|));
    }
  }
}
