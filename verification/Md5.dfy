/**
 The incremental MD5 hasher (lib/md5/md5c.c) against the one-shot definition in sections 3.1 to 3.5
 of RFC 1321.
 */
module Md5 {
  import opened Bytes
  import opened Md5Transform

  // ----- The one-shot definition -----

  /** Section 3.3: the registers before the first block. */
  const INITIAL := Regs(0x67452301, 0xefcdab89, 0x98badcfe, 0x10325476)

  /** Section 3.4: the registers after every block of `m`. */
  function Absorb(m: seq<byte>): Regs
    requires |m| % 64 == 0
  {
    if m == [] then INITIAL else Compress(Absorb(m[..|m| - 64]), m[|m| - 64..])
  }

  /** A word, low-order byte first. */
  function EncodeWord(w: word): (s: seq<byte>)
    ensures |s| == 4
  {
    [(w & 0xff) as byte, ((w >> 8) & 0xff) as byte, ((w >> 16) & 0xff) as byte, ((w >> 24) & 0xff) as byte]
  }

  function EncodeWords(ws: seq<word>): (s: seq<byte>)
    ensures |s| == 4 * |ws|
  {
    if ws == [] then [] else EncodeWords(ws[..|ws| - 1]) + EncodeWord(ws[|ws| - 1])
  }

  function Zeros(n: nat): (s: seq<byte>)
    ensures |s| == n
  {
    seq(n, _ => 0)
  }

  /** Section 3.1: a one bit, then zero bits until the length is 56 bytes beyond a block boundary. */
  function Padding(length: nat): (s: seq<byte>)
    ensures 1 <= |s| <= 64 && (length + |s|) % 64 == 56
  {
    [0x80] + Zeros((55 - length) % 64)
  }

  function AsWord(n: uint32): word { n as word }

  /** The source pads from a constant block. */
  const PADDING: seq<byte> := [0x80] + Zeros(63)

  lemma PaddingPrefix(length: nat, padLen: nat)
    requires padLen == if length % 64 < 56 then 56 - length % 64 else 120 - length % 64
    ensures padLen <= |PADDING| && PADDING[..padLen] == Padding(length)
  {
  }

  /** Section 3.2: the length in bits modulo 2^64, as two words, low-order word first. */
  function LengthWords(length: nat): (ws: seq<word>)
    ensures |ws| == 2
  {
    var bits := (8 * length) % 0x1_0000_0000_0000_0000;
    [AsWord(bits % 0x1_0000_0000), AsWord(bits / 0x1_0000_0000)]
  }

  function Padded(m: seq<byte>): seq<byte> {
    m + Padding(|m|) + EncodeWords(LengthWords(|m|))
  }

  lemma PaddedParts(m: seq<byte>)
    ensures Padded(m) == m + Padding(|m|) + EncodeWords(LengthWords(|m|))
  {
  }

  lemma PaddedLength(m: seq<byte>)
    ensures |Padded(m)| % 64 == 0
  {
    hide Padding, LengthWords, EncodeWords;
  }

  /** Section 3.5. */
  function Digest(m: seq<byte>): (s: seq<byte>)
    ensures |s| == 16
  {
    PaddedLength(m);
    DigestOf(Absorb(Padded(m)))
  }

  function DigestOf(r: Regs): (s: seq<byte>)
    ensures |s| == 16
  {
    EncodeWords([r.a, r.b, r.c, r.d])
  }

  // ----- Absorbing in steps -----

  /** `r` has taken in the first `w` bytes of `m`, a whole number of blocks. */
  ghost predicate Absorbed(r: Regs, m: seq<byte>, w: nat) {
    w <= |m| && w % 64 == 0 && r == Absorb(m[..w])
  }

  lemma AbsorbNext(r: Regs, m: seq<byte>, w: nat, block: seq<byte>)
    requires Absorbed(r, m, w) && w + 64 <= |m| && block == m[w..w + 64]
    ensures Absorbed(Compress(r, block), m, w + 64)
  {
    hide Compress;
    assert m[..w + 64][..w] == m[..w];
    assert m[..w + 64][w..] == m[w..w + 64];
  }

  lemma AbsorbedStill(r: Regs, m: seq<byte>, n: seq<byte>, w: nat)
    requires Absorbed(r, m, w)
    ensures Absorbed(r, m + n, w)
  {
    assert (m + n)[..w] == m[..w];
  }

  lemma AddBlocks(n: int, k: int)
    ensures (n + 64 * k) % 64 == n % 64
  {
  }

  lemma BlockRemainder(n: nat, w: nat)
    requires w % 64 == 0 && w <= n < w + 64
    ensures n % 64 == n - w
  {
    AddBlocks(n - w, w / 64);
    assert n == n - w + 64 * (w / 64);
  }

  lemma AbsorbedAll(r: Regs, m: seq<byte>, w: nat)
    requires Absorbed(r, m, w) && |m| < w + 64 && |m| % 64 == 0
    ensures r == Absorb(m)
  {
    hide Absorb;
    BlockRemainder(|m|, w);
    assert w == |m|;
    assert m[..w] == m;
  }

  // ----- The bit counter -----

  /** Two 32-bit words hold the bit length modulo 2^64. */
  predicate Counts(count0: uint32, count1: uint32, length: nat) {
    count0 + 0x1_0000_0000 * count1 == (8 * length) % 0x1_0000_0000_0000_0000
  }

  /** The number of bytes in the buffer, which the code reads off the low word. */
  function HeldBytes(count0: uint32): nat {
    count0 / 8 % 64
  }

  lemma CountedIndex(count0: uint32, count1: uint32, length: nat)
    requires Counts(count0, count1, length)
    ensures HeldBytes(count0) == length % 64
  {
    var k := 8 * length / 0x1_0000_0000_0000_0000;
    assert 8 * length == count0 + 0x1_0000_0000 * count1 + 0x1_0000_0000_0000_0000 * k;
    assert count0 == 8 * (length - 0x2000_0000 * count1 - 0x2000_0000_0000_0000 * k);
    EighthOf(count0, length - 0x2000_0000 * count1 - 0x2000_0000_0000_0000 * k);
    AddBlocks(count0 / 8, 0x80_0000 * count1 + 0x80_0000_0000_0000 * k);
  }

  lemma EighthOf(n: int, e: int)
    requires n == 8 * e
    ensures n / 8 == e
  {
  }

  lemma SplitWords(bits: int, count0: uint32, count1: uint32)
    requires count0 + 0x1_0000_0000 * count1 == bits
    ensures count0 == bits % 0x1_0000_0000 && count1 == bits / 0x1_0000_0000
  {
  }

  lemma CountedWords(count0: uint32, count1: uint32, length: nat)
    requires Counts(count0, count1, length)
    ensures [AsWord(count0), AsWord(count1)] == LengthWords(length)
  {
    hide AsWord;
    SplitWords((8 * length) % 0x1_0000_0000_0000_0000, count0, count1);
  }

  lemma CountedPartial(count0: uint32, count1: uint32, r: Regs, m: seq<byte>, w: nat)
    requires Counts(count0, count1, |m|) && Absorbed(r, m, w) && |m| < w + 64
    ensures HeldBytes(count0) == |m| - w
  {
    CountedIndex(count0, count1, |m|);
    BlockRemainder(|m|, w);
  }

  lemma CountedMore(count0: uint32, count1: uint32, length: nat, more: uint32)
    requires Counts(count0, count1, length)
    ensures
      var low := 8 * more % 0x1_0000_0000;
      var sum := (count0 + low) % 0x1_0000_0000;
      var carried := if sum < low then (count1 + 1) % 0x1_0000_0000 else count1;
      Counts(sum, (carried + more / 0x2000_0000) % 0x1_0000_0000, length + more)
  {
    hide Counts;
    var low := 8 * more % 0x1_0000_0000;
    var high := more / 0x2000_0000;
    var sum := (count0 + low) % 0x1_0000_0000;
    var carry := if sum < low then 1 else 0;
    var carried := if sum < low then (count1 + 1) % 0x1_0000_0000 else count1;
    MoreBits(more);
    CarryOut(count0, low);
    var overflow := (count1 + carry - carried) / 0x1_0000_0000;
    assert count1 + carry == carried + 0x1_0000_0000 * overflow;
    var top := carried + high;
    CountsSum(count0, count1, length, low, high, more, sum, carry,
              overflow + top / 0x1_0000_0000, top % 0x1_0000_0000);
  }

  lemma CarryOut(count0: uint32, low: uint32)
    ensures
      var sum := (count0 + low) % 0x1_0000_0000;
      count0 + low == sum + (if sum < low then 0x1_0000_0000 else 0)
  {
  }

  lemma CountsSum(count0: uint32, count1: uint32, length: nat, low: nat, high: nat, more: nat,
                  sum: uint32, carry: int, t: int, u: uint32)
    requires Counts(count0, count1, length) && 8 * more == low + 0x1_0000_0000 * high
    requires count0 + low == sum + 0x1_0000_0000 * carry
    requires count1 + carry + high == 0x1_0000_0000 * t + u
    ensures Counts(sum, u, length + more)
  {
    var k := 8 * length / 0x1_0000_0000_0000_0000;
    TwoWordSum(count0, count1, k, low, high, sum, carry, t, u);
    UniqueRemainder(8 * (length + more), sum + 0x1_0000_0000 * u, k + t);
  }

  lemma MoreBits(more: uint32)
    ensures 8 * more == 8 * more % 0x1_0000_0000 + 0x1_0000_0000 * (more / 0x2000_0000)
  {
  }

  lemma TwoWordSum(c0: int, c1: int, k: int, low: int, high: int, sum: int, carry: int, t: int, u: int)
    requires c0 + low == sum + 0x1_0000_0000 * carry
    requires c1 + carry + high == 0x1_0000_0000 * t + u
    ensures
      (c0 + 0x1_0000_0000 * c1 + 0x1_0000_0000_0000_0000 * k) + (low + 0x1_0000_0000 * high)
      == sum + 0x1_0000_0000 * u + 0x1_0000_0000_0000_0000 * (k + t)
  {
  }

  lemma UniqueRemainder(n: nat, r: nat, k: int)
    requires r < 0x1_0000_0000_0000_0000 && n == r + 0x1_0000_0000_0000_0000 * k
    ensures r == n % 0x1_0000_0000_0000_0000
  {
  }

  // ----- The 32-bit loop index -----

  /** The loop over whole blocks ends where they do, `rest` bytes before the end of the input: its index
      and the 63 that are added to it fit in 32 bits there. */
  predicate Countable(length: nat, rest: nat) {
    length < 0x1_0000_0000 && length - rest <= 0x1_0000_0000 - 64
  }

  /** At the end of the whole blocks, the test of the loop fails exactly for countable inputs. For any
      other it goes on, to a block of which not all is there. */
  lemma EndsExactly(length: uint32, rest: nat)
    requires rest < 64 && rest <= length
    ensures (length - rest + 63) % 0x1_0000_0000 < length <==> !Countable(length, rest)
  {
    if length - rest > 0x1_0000_0000 - 64 {
      assert (length - rest + 63) % 0x1_0000_0000 == length - rest + 63 - 0x1_0000_0000;
    }
  }

  lemma SameRest(m: nat, n: nat)
    ensures (m % 64 + n) % 64 == (m + n) % 64
  {
  }

  // ----- The hasher -----

  /** `MD5_memcpy`, into a buffer from `offset` on. */
  method Copy(output: array<byte>, offset: nat, input: seq<byte>)
    requires offset + |input| <= output.Length
    modifies output
    ensures output[..] == old(output[..offset]) + input + old(output[offset + |input|..])
  {
    for i := 0 to |input|
      invariant output[..offset] == old(output[..offset])
      invariant output[offset..offset + i] == input[..i]
      invariant output[offset + i..] == old(output[offset + i..])
    {
      output[offset + i] := input[i];
      assert output[offset..offset + (i + 1)] == output[offset..offset + i] + [input[i]];
    }
  }

  /** `Encode`. */
  method Encode(output: array<byte>, input: seq<word>)
    requires output.Length == 4 * |input|
    modifies output
    ensures output[..] == EncodeWords(input)
  {
    hide EncodeWord;
    var i, j := 0, 0;
    while j < output.Length
      invariant j == 4 * i && i <= |input|
      invariant output[..j] == EncodeWords(input[..i])
    {
      var bytes := EncodeWord(input[i]);
      output[j] := bytes[0];
      output[j + 1] := bytes[1];
      output[j + 2] := bytes[2];
      output[j + 3] := bytes[3];
      assert input[..i + 1][..i] == input[..i];
      assert output[..j + 4] == output[..j] + bytes;
      i, j := i + 1, j + 4;
    }
    assert input[..i] == input;
    assert output[..j] == output[..];
  }

  class Context {
    var state: Regs
    var count0: uint32
    var count1: uint32
    const buffer: array<byte>
    /** Everything hashed so far, and how much of it is in `state`; the rest is in `buffer`. */
    ghost var message: seq<byte>
    ghost var absorbed: nat

    ghost predicate Valid()
      reads this, buffer
    {
      && buffer.Length == 64
      && Counts(count0, count1, |message|)
      && absorbed <= |message| < absorbed + 64
      && Absorbed(state, message, absorbed)
      && buffer[..|message| - absorbed] == message[absorbed..]
    }

    /** `MD5Init`. */
    constructor ()
      ensures Valid() && fresh(buffer)
      ensures message == []
    {
      count0, count1 := 0, 0;
      state := INITIAL;
      buffer := new byte[64];
      message, absorbed := [], 0;
    }

    /** The part of `MD5Update` that adds to the two-word bit count. */
    method AddCount(inputLen: uint32)
      requires Counts(count0, count1, |message|)
      modifies `count0, `count1
      ensures Counts(count0, count1, |message| + inputLen)
    {
      hide Counts;
      CountedMore(count0, count1, |message|, inputLen);
      var low := 8 * inputLen % 0x1_0000_0000;
      count0 := (count0 + low) % 0x1_0000_0000;
      if count0 < low {
        count1 := (count1 + 1) % 0x1_0000_0000;
      }
      count1 := (count1 + inputLen / 0x2000_0000) % 0x1_0000_0000;
    }

    /** The part of `MD5Update` that fills the carried block up and takes it in. */
    method CompleteBlock(index: nat, part: seq<byte>)
      requires buffer.Length == 64 && index + |part| == 64
      requires Absorbed(state, message, absorbed) && absorbed + 64 <= |message|
      requires buffer[..index] + part == message[absorbed..absorbed + 64]
      modifies `state, `absorbed, buffer
      ensures absorbed == old(absorbed) + 64 && Absorbed(state, message, absorbed)
    {
      hide Compress, Absorb, Absorbed;
      Copy(buffer, index, part);
      assert buffer[..] == message[absorbed..absorbed + 64];
      AbsorbNext(state, message, absorbed, buffer[..]);
      state := Transform(state, buffer[..]);
      absorbed := absorbed + 64;
    }

    /** The loop of `MD5Update` over the whole blocks of `input` from `start` on. */
    method AbsorbBlocks(input: seq<byte>, start: nat) returns (i: nat)
      requires start <= |input| && Countable(|input|, (|input| - start) % 64)
      requires |input| <= |message| && message[|message| - |input|..] == input
      requires absorbed == |message| - |input| + start && Absorbed(state, message, absorbed)
      modifies `state, `absorbed
      ensures start <= i <= |input| < i + 64
      ensures absorbed == |message| - |input| + i && Absorbed(state, message, absorbed)
    {
      hide Compress, Absorb, Absorbed;
      i := start;
      ghost var end := |input| - (|input| - start) % 64;
      while (i + 63) % 0x1_0000_0000 < |input|
        invariant start <= i <= end && (end - i) % 64 == 0
        invariant absorbed == |message| - |input| + i
        invariant Absorbed(state, message, absorbed)
        decreases |input| - i
      {
        assert i + 64 <= |input|;
        var block := input[i..i + 64];
        assert message[absorbed..absorbed + 64] == block;
        AbsorbNext(state, message, absorbed, block);
        state := Transform(state, block);
        absorbed := absorbed + 64;
        AddBlocks(end - i, -1);
        i := i + 64;
      }
    }

    /** The part of `MD5Update` that takes in whole blocks and carries the rest over. */
    method TakeIn(input: seq<byte>, index: nat, ghost start: nat)
      requires buffer.Length == 64 && Countable(|input|, (index + |input|) % 64)
      requires index < 64 && absorbed + index == start <= |message| && message[start..] == input
      requires Absorbed(state, message, absorbed) && buffer[..index] == message[absorbed..start]
      modifies `state, `absorbed, buffer
      ensures absorbed <= |message| < absorbed + 64 && Absorbed(state, message, absorbed)
      ensures buffer[..|message| - absorbed] == message[absorbed..]
    {
      hide Compress, Absorb, Absorbed, Countable;
      var partLen := 64 - index;
      if |input| >= partLen {
        assert message[start..start + partLen] == input[..partLen];
        CompleteBlock(index, input[..partLen]);
        AddBlocks(index + |input|, -1);
        var i := AbsorbBlocks(input, partLen);
        Copy(buffer, 0, input[i..]);
        assert message[absorbed..] == input[i..];
      } else {
        Copy(buffer, index, input);
        assert message[absorbed..] == message[absorbed..start] + input;
      }
    }

    /** `MD5Update`. */
    method Update(input: seq<byte>)
      requires Valid() && Countable(|input|, (|message| + |input|) % 64)
      modifies this, buffer
      ensures Valid()
      ensures message == old(message) + input
    {
      hide Compress, Counts, Absorb, Absorbed, HeldBytes;
      var index := HeldBytes(count0);
      CountedPartial(count0, count1, state, message, absorbed);
      CountedIndex(count0, count1, |message|);
      SameRest(|message|, |input|);
      AbsorbedStill(state, message, input, absorbed);
      AddCount(|input|);
      ghost var start := |message|;
      message := message + input;
      TakeIn(input, index, start);
    }

    /** The part of `MD5Final` that appends the padding and the length. */
    method Pad()
      requires Valid()
      modifies this, buffer
      ensures Valid()
      ensures message == Padded(old(message))
    {
      assert Counts(count0, count1, |message|);
      hide Valid, Compress, Counts, Absorb, Absorbed, EncodeWord, EncodeWords;
      hide AsWord, HeldBytes, Padding, PADDING, Zeros, LengthWords, Padded;
      ghost var m := message;
      CountedWords(count0, count1, |m|);
      CountedIndex(count0, count1, |m|);
      PaddedParts(m);
      var bits := new byte[8];
      Encode(bits, [AsWord(count0), AsWord(count1)]);

      var index := HeldBytes(count0);
      var padLen := if index < 56 then 56 - index else 120 - index;
      PaddingPrefix(|m|, padLen);
      Update(PADDING[..padLen]);
      Update(bits[..]);
    }

    /** `MD5Final`. */
    method Final(digest: array<byte>)
      requires Valid()
      requires digest.Length == 16 && digest != buffer
      modifies this, buffer, digest
      ensures digest[..] == Digest(old(message))
      ensures state == Regs(0, 0, 0, 0) && count0 == count1 == 0 && forall k :: 0 <= k < 64 ==> buffer[k] == 0
    {
      hide Compress, Counts, Absorb, Absorbed, EncodeWord, EncodeWords, Padded;
      PaddedLength(message);
      Pad();
      AbsorbedAll(state, message, absorbed);
      Encode(digest, [state.a, state.b, state.c, state.d]);

      state := Regs(0, 0, 0, 0);
      count0, count1 := 0, 0;
      forall k | 0 <= k < buffer.Length {
        buffer[k] := 0;
      }
    }
  }

  /** However a message is cut into chunks, hashing these one after the other gives the digest of the
      message. */
  method HashChunks(chunks: seq<seq<byte>>) returns (digest: array<byte>)
    requires forall i :: 0 <= i < |chunks| ==> Countable(|chunks[i]|, |Flatten(chunks[..i + 1])| % 64)
    ensures fresh(digest) && digest[..] == Digest(Flatten(chunks))
  {
    hide Context.Valid, Flatten, Digest, Countable;
    var md5 := new Context();
    NothingFlat<byte>();
    for i := 0 to |chunks|
      invariant md5.Valid() && fresh(md5) && fresh(md5.buffer) && md5.message == Flatten(chunks[..i])
    {
      FlattenNext(chunks, i);
      md5.Update(chunks[i]);
    }
    assert chunks[..|chunks|] == chunks;
    digest := new byte[16];
    md5.Final(digest);
  }

  lemma NothingFlat<T>()
    ensures Flatten<T>([]) == []
  {
  }

  lemma {:induction false} FlattenNext<T>(parts: seq<seq<T>>, i: nat)
    requires i < |parts|
    ensures Flatten(parts[..i + 1]) == Flatten(parts[..i]) + parts[i]
    decreases i
  {
    if i == 0 {
      assert parts[..1] == [parts[0]] && Flatten(parts[..1][1..]) == [];
    } else {
      FlattenNext(parts[1..], i - 1);
      assert parts[..i + 1][1..] == parts[1..][..i] && parts[..i][1..] == parts[1..][..i - 1];
    }
  }
}
