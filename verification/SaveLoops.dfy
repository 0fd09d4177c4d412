/**
 What the loops of `unshield_file_save` and `unshield_file_save_raw` make of a stream (lib/file.c): one
 reads length-framed payloads and inflates each, the other copies.
 */
module SaveLoops {
  import opened Bytes
  import opened Cabinet

  /** A raw inflater for the bytes of one payload and a zero byte behind them. What it does inside is
      not part of this model; its output fits the 64 KiB buffer that it is given. */
  type Inflater = seq<byte> -> Option<seq<byte>>

  ghost predicate FitsBuffer(inflate: Inflater) {
    forall s :: inflate(s).Some? ==> |inflate(s).value| <= 0x1_0000
  }

  type uint8 = x: int | 0 <= x < 0x100

  function Number(b: byte): uint8 { b as uint8 }

  /** `READ_UINT16`: the low byte first. */
  function ReadUint16(s: seq<byte>): uint16
    requires |s| == 2
  {
    Number(s[0]) + 0x100 * Number(s[1])
  }

  // ----- Frames -----

  /** A payload behind the two bytes that give its length. */
  datatype Frame = Frame(length: seq<byte>, payload: seq<byte>)

  /** The payload is not empty, and the two bytes are its length, the low byte first. */
  predicate ValidFrame(f: Frame) {
    && |f.length| == 2 && 0 < |f.payload| < 0x1_0000
    && f.length[0] as int == |f.payload| % 0x100 && f.length[1] as int == |f.payload| / 0x100
  }

  lemma LengthRead(f: Frame)
    ensures ValidFrame(f) <==> |f.length| == 2 && 0 < |f.payload| == ReadUint16(f.length)
  {
    if |f.length| == 2 {
      NumberRead(f.length, |f.payload|);
    }
    hide ReadUint16;
  }

  /** Two bytes hold a number below 2^16, the low byte first. */
  lemma NumberRead(s: seq<byte>, n: nat)
    requires |s| == 2
    ensures ReadUint16(s) == n <==> n < 0x1_0000 && s[0] as int == n % 0x100 && s[1] as int == n / 0x100
  {
    TwoDigits(Number(s[0]), Number(s[1]), n);
  }

  lemma TwoDigits(low: uint8, high: uint8, n: nat)
    ensures low + 0x100 * high == n <==> n < 0x1_0000 && low == n % 0x100 && high == n / 0x100
  {
  }

  ghost predicate ValidFrames(fs: seq<Frame>, inflate: Inflater) {
    forall i :: 0 <= i < |fs| ==> ValidFrame(fs[i]) && inflate(fs[i].payload + [0]).Some?
  }

  /** The bytes of a row of frames. */
  function Joined(fs: seq<Frame>): seq<byte> {
    if fs == [] then [] else fs[0].length + fs[0].payload + Joined(fs[1..])
  }

  /** The output that a row of frames stands for. */
  function Inflated(fs: seq<Frame>, inflate: Inflater): seq<byte> {
    if fs == [] then []
    else
      (match inflate(fs[0].payload + [0])
       case None => []
       case Some(chunk) => chunk)
      + Inflated(fs[1..], inflate)
  }

  /** Bytes can be read as frames in one way only. */
  lemma {:induction false} FramesUnique(fs: seq<Frame>, gs: seq<Frame>)
    requires forall i :: 0 <= i < |fs| ==> ValidFrame(fs[i])
    requires forall i :: 0 <= i < |gs| ==> ValidFrame(gs[i])
    requires Joined(fs) == Joined(gs)
    ensures fs == gs
  {
    hide ReadUint16;
    if fs == [] || gs == [] {
      assert |Joined(fs)| == |Joined(gs)|;
    } else {
      var f, g := fs[0], gs[0];
      LengthRead(f);
      LengthRead(g);
      hide ValidFrame;
      var x := Joined(fs);
      assert f.length == x[..2] == g.length;
      assert f.payload == x[2..2 + |f.payload|] == g.payload;
      assert Joined(fs[1..]) == x[2 + |f.payload|..] == Joined(gs[1..]);
      FramesUnique(fs[1..], gs[1..]);
    }
  }

  // ----- The loop of `unshield_file_save` over a compressed file -----

  /** The frames that the loop reads while `left` is not zero, or nothing where it gives up. The
      counter `left` goes round at 32 bits. */
  ghost function Frames(s: Source, obfuscated: bool, left: uint32, inflate: Inflater): Option<seq<Frame>>
    requires Sound(s)
    decreases |PlainStream(s, obfuscated)|
  {
    if left == 0 then Some([])
    else
      TakeIsStream(s, obfuscated, 2);
      match Take(s, obfuscated, 2)
      case None => None
      case Some((length, s1)) =>
        var n := ReadUint16(length);
        TakeIsStream(s1, obfuscated, n);
        if n == 0 then None
        else
          match Take(s1, obfuscated, n)
          case None => None
          case Some((payload, s2)) =>
            if inflate(payload + [0]).None? then None
            else
              match Frames(s2, obfuscated, Minus32(Minus32(left, 2), n), inflate)
              case None => None
              case Some(rest) => Some([Frame(length, payload)] + rest)
  }

  /** What the loop has read when it ends: valid frames from the front of the stream, whose lengths add
      up to the counter modulo 2^32. */
  lemma {:induction false} FramesAreStream(s: Source, obfuscated: bool, left: uint32, inflate: Inflater)
    requires Sound(s) && Frames(s, obfuscated, left, inflate).Some?
    ensures
      var fs := Frames(s, obfuscated, left, inflate).value;
      && ValidFrames(fs, inflate)
      && Joined(fs) <= PlainStream(s, obfuscated)
      && |Joined(fs)| % 0x1_0000_0000 == left
    decreases |PlainStream(s, obfuscated)|
  {
    hide Take, PlainStream, Frames, ReadUint16, Minus32, ValidFrame;
    if left == 0 {
      NoFrames(s, obfuscated, inflate);
    } else {
      var n, payload, s2 := FrameStep(s, obfuscated, left, inflate);
      var left2 := Minus32(Minus32(left, 2), n);
      FramesAreStream(s2, obfuscated, left2, inflate);
      var rest := Frames(s2, obfuscated, left2, inflate).value;
      var fs := Frames(s, obfuscated, left, inflate).value;
      assert fs[1..] == rest;
      CounterStep(left, n, |Joined(rest)|);
    }
  }

  /** The loop stops at the first place where they do. */
  lemma {:induction false} FramesStopFirst(s: Source, obfuscated: bool, left: uint32, inflate: Inflater, k: nat)
    requires Sound(s) && Frames(s, obfuscated, left, inflate).Some?
    requires k < |Frames(s, obfuscated, left, inflate).value|
    ensures |Joined(Frames(s, obfuscated, left, inflate).value[..k])| % 0x1_0000_0000 != left
    decreases k
  {
    hide Take, PlainStream, Frames, ReadUint16, Minus32, ValidFrame, Joined;
    NoFrames(s, obfuscated, inflate);
    var n, payload, s2 := FrameStep(s, obfuscated, left, inflate);
    var left2 := Minus32(Minus32(left, 2), n);
    if k > 0 {
      FramesStopFirst(s2, obfuscated, left2, inflate, k - 1);
      var rest := Frames(s2, obfuscated, left2, inflate).value;
      var fs := Frames(s, obfuscated, left, inflate).value;
      JoinedFront(fs, rest, k);
      CounterStep(left, n, |Joined(rest[..k - 1])|);
    }
  }

  lemma NoFrames(s: Source, obfuscated: bool, inflate: Inflater)
    requires Sound(s)
    ensures Frames(s, obfuscated, 0, inflate) == Some([]) && Joined([]) == []
  {
  }

  lemma JoinedFront(fs: seq<Frame>, rest: seq<Frame>, k: nat)
    requires fs != [] && rest == fs[1..] && 0 < k <= |fs|
    ensures |Joined(fs[..k])| == |fs[0].length| + |fs[0].payload| + |Joined(rest[..k - 1])|
  {
    assert fs[..k][1..] == rest[..k - 1];
  }

  /** One round of the loop that does not give up. */
  lemma FrameStep(s: Source, obfuscated: bool, left: uint32, inflate: Inflater)
    returns (n: nat, payload: seq<byte>, s2: Source)
    requires Sound(s) && left != 0 && Frames(s, obfuscated, left, inflate).Some?
    ensures Sound(s2) && |PlainStream(s2, obfuscated)| < |PlainStream(s, obfuscated)|
    ensures |payload| == n < 0x1_0000 && Frames(s2, obfuscated, Minus32(Minus32(left, 2), n), inflate).Some?
    ensures 2 <= |PlainStream(s, obfuscated)|
    ensures
      var stream := PlainStream(s, obfuscated);
      var f := Frame(stream[..2], payload);
      && ValidFrame(f) && |f.length| == 2 && inflate(payload + [0]).Some?
      && stream == f.length + payload + PlainStream(s2, obfuscated)
      && Frames(s, obfuscated, left, inflate).value
         == [f] + Frames(s2, obfuscated, Minus32(Minus32(left, 2), n), inflate).value
  {
    hide Take, PlainStream, ReadUint16, ValidFrame;
    TakeIsStream(s, obfuscated, 2);
    var (length, s1) := Take(s, obfuscated, 2).value;
    n := ReadUint16(length);
    TakeIsStream(s1, obfuscated, n);
    payload, s2 := Take(s1, obfuscated, n).value.0, Take(s1, obfuscated, n).value.1;
    LengthRead(Frame(length, payload));
    var stream := PlainStream(s, obfuscated);
    assert stream == stream[..2] + (stream[2..][..n] + stream[2..][n..]);
  }

  lemma CounterStep(left: uint32, n: nat, rest: nat)
    ensures rest % 0x1_0000_0000 == Minus32(Minus32(left, 2), n) <==> (2 + n + rest) % 0x1_0000_0000 == left
  {
    var a := left - 2 - n - rest;
    SameRemainder(rest, left - 2 - n);
    SameRemainder(2 + n + rest, left);
    SameRemainder(Minus32(left, 2) - n, left - 2 - n);
    assert left - 2 - Minus32(left, 2) == 0x1_0000_0000 * ((left - 2) / 0x1_0000_0000);
  }

  /** Two numbers leave the same remainder exactly when their difference is a multiple. */
  lemma SameRemainder(x: int, y: int)
    ensures x % 0x1_0000_0000 == y % 0x1_0000_0000 <==> (y - x) % 0x1_0000_0000 == 0
  {
  }

  // ----- The copying loop: uncompressed files, and every raw save -----

  /** The bytes that the loop copies while `left` is not zero, at most a buffer at a time. */
  ghost function Copied(s: Source, obfuscated: bool, left: nat): Option<seq<byte>>
    requires Sound(s)
    decreases left
  {
    if left == 0 then Some([])
    else
      var n := Min(left, 0x1_0000);
      TakeIsStream(s, obfuscated, n);
      match Take(s, obfuscated, n)
      case None => None
      case Some((bytes, s')) =>
        match Copied(s', obfuscated, left - n)
        case None => None
        case Some(rest) => Some(bytes + rest)
  }

  lemma FrontInParts(stream: seq<byte>, n: nat, left: nat)
    requires n <= left && n <= |stream| && left - n <= |stream[n..]|
    ensures stream[..left] == stream[..n] + stream[n..][..left - n]
  {
  }

  lemma {:induction false} CopiedIsStream(s: Source, obfuscated: bool, left: nat)
    requires Sound(s) && Copied(s, obfuscated, left).Some?
    ensures left <= |PlainStream(s, obfuscated)|
    ensures Copied(s, obfuscated, left).value == PlainStream(s, obfuscated)[..left]
    decreases left
  {
    if left != 0 {
      hide PlainStream, Take, Sound;
      var n := Min(left, 0x1_0000);
      TakeIsStream(s, obfuscated, n);
      var (bytes, s') := Take(s, obfuscated, n).value;
      CopiedIsStream(s', obfuscated, left - n);
      hide Copied;
      FrontInParts(PlainStream(s, obfuscated), n, left);
    }
  }

  // ----- Framed and raw -----

  /** Where both loops succeed on a stream of less than 4 GiB, in any number of pieces, one copies the
      frames that the other reads, and nothing else. */
  lemma CopiedAreFrames(s: Source, obfuscated: bool, left: uint32, inflate: Inflater)
    requires Sound(s) && |PlainStream(s, obfuscated)| < 0x1_0000_0000
    requires Frames(s, obfuscated, left, inflate).Some? && Copied(s, obfuscated, left).Some?
    ensures ValidFrames(Frames(s, obfuscated, left, inflate).value, inflate)
    ensures Copied(s, obfuscated, left).value == Joined(Frames(s, obfuscated, left, inflate).value)
  {
    hide Frames, Copied, PlainStream, Joined, ValidFrames, Sound;
    var fs := Frames(s, obfuscated, left, inflate).value;
    FramesAreStream(s, obfuscated, left, inflate);
    CopiedIsStream(s, obfuscated, left);
    SmallRemainder(|Joined(fs)|);
  }

  // ----- One volume -----

  /** There is one piece, of a size that 32 bits hold. */
  ghost predicate OnePiece(s: Source) {
    Sound(s) && |s.pieces| == 1 && s.pieces[0].left < 0x1_0000_0000
  }

  /** Reading within one piece. */
  lemma TakeInPiece(s: Source, obfuscated: bool, n: nat)
    requires OnePiece(s) && 0 < n
    ensures Take(s, obfuscated, n).Some? <==> n <= |PlainStream(s, obfuscated)|
    ensures Take(s, obfuscated, n).Some? ==> OnePiece(Take(s, obfuscated, n).value.1)
  {
    hide PlainStream;
    TakeIsStream(s, obfuscated, n);
    DeliverIsStream(s.pieces, n);
    PieceLength(s, obfuscated);
  }

  lemma PieceLength(s: Source, obfuscated: bool)
    requires OnePiece(s)
    ensures |PlainStream(s, obfuscated)| == |s.pieces[0].data| < 0x1_0000_0000
  {
    assert Stream(s.pieces) == s.pieces[0].data;
  }

  /** From one piece the copying loop succeeds exactly when as much as it counts is there. */
  lemma {:induction false} CopiedWhole(s: Source, obfuscated: bool, left: nat)
    requires OnePiece(s)
    ensures Copied(s, obfuscated, left)
         == if left <= |PlainStream(s, obfuscated)| then Some(PlainStream(s, obfuscated)[..left]) else None
    decreases left
  {
    hide PlainStream, Take, Sound;
    if left != 0 {
      var n := Min(left, 0x1_0000);
      TakeInPiece(s, obfuscated, n);
      TakeIsStream(s, obfuscated, n);
      if Take(s, obfuscated, n).Some? {
        CopiedWhole(Take(s, obfuscated, n).value.1, obfuscated, left - n);
        var stream := PlainStream(s, obfuscated);
        if left <= |stream| {
          FrontInParts(stream, n, left);
        }
      }
    }
  }

  /** From one piece the framing loop succeeds with `fs` exactly when those are valid frames at its front,
      as long as it counts. */
  lemma FramesWhole(s: Source, obfuscated: bool, left: uint32, inflate: Inflater, fs: seq<Frame>)
    requires OnePiece(s)
    ensures Frames(s, obfuscated, left, inflate) == Some(fs)
       <==> ValidFrames(fs, inflate) && Joined(fs) <= PlainStream(s, obfuscated) && |Joined(fs)| == left
  {
    PieceLength(s, obfuscated);
    hide PlainStream, Frames, Joined, ValidFrames;
    if Frames(s, obfuscated, left, inflate) == Some(fs) {
      FramesAreStream(s, obfuscated, left, inflate);
      SmallRemainder(|Joined(fs)|);
    }
    if ValidFrames(fs, inflate) && Joined(fs) <= PlainStream(s, obfuscated) && |Joined(fs)| == left {
      FramesFound(s, obfuscated, left, inflate, fs);
    }
  }

  /** One round of the loop where a valid frame comes next. */
  lemma FrameNext(s: Source, obfuscated: bool, left: uint32, inflate: Inflater, f: Frame, rest: seq<byte>)
    returns (s2: Source)
    requires OnePiece(s) && ValidFrame(f) && inflate(f.payload + [0]).Some?
    requires PlainStream(s, obfuscated) == f.length + f.payload + rest && 2 + |f.payload| <= left
    ensures OnePiece(s2) && PlainStream(s2, obfuscated) == rest
    ensures
      var more := Frames(s2, obfuscated, left - 2 - |f.payload|, inflate);
      more.Some? ==> Frames(s, obfuscated, left, inflate) == Some([f] + more.value)
  {
    LengthRead(f);
    hide PlainStream, Take, ReadUint16, ValidFrame;
    var n := |f.payload|;
    var stream := PlainStream(s, obfuscated);
    assert stream[..2] == f.length && stream[2..] == f.payload + rest;
    TakeIsStream(s, obfuscated, 2);
    TakeInPiece(s, obfuscated, 2);
    var s1 := Take(s, obfuscated, 2).value.1;
    TakeIsStream(s1, obfuscated, n);
    TakeInPiece(s1, obfuscated, n);
    s2 := Take(s1, obfuscated, n).value.1;
    SmallRemainder(left - 2);
    SmallRemainder(left - 2 - n);
  }

  lemma FrontFrame(fs: seq<Frame>, stream: seq<byte>)
    requires fs != [] && ValidFrame(fs[0]) && Joined(fs) <= stream
    ensures
      var f := fs[0];
      var n := |f.payload|;
      2 + n <= |stream| && stream == f.length + f.payload + stream[2 + n..] && Joined(fs[1..]) <= stream[2 + n..]
    ensures |Joined(fs)| == 2 + |fs[0].payload| + |Joined(fs[1..])|
  {
    FrontParts(fs[0].length + fs[0].payload, Joined(fs[1..]), stream);
  }

  lemma FrontParts(front: seq<byte>, rest: seq<byte>, stream: seq<byte>)
    requires front + rest <= stream
    ensures |front| <= |stream| && stream == front + stream[|front|..] && rest <= stream[|front|..]
  {
    var tail := stream[|front + rest|..];
    assert stream == front + (rest + tail);
  }

  lemma ValidRest(fs: seq<Frame>, inflate: Inflater)
    requires fs != [] && ValidFrames(fs, inflate)
    ensures ValidFrame(fs[0]) && inflate(fs[0].payload + [0]).Some? && ValidFrames(fs[1..], inflate)
    ensures fs == [fs[0]] + fs[1..]
  {
    hide ValidFrame;
  }

  lemma {:induction false} FramesFound(s: Source, obfuscated: bool, left: uint32, inflate: Inflater, fs: seq<Frame>)
    requires OnePiece(s)
    requires ValidFrames(fs, inflate) && Joined(fs) <= PlainStream(s, obfuscated) && |Joined(fs)| == left
    ensures Frames(s, obfuscated, left, inflate) == Some(fs)
    decreases |fs|
  {
    if fs != [] {
      ValidRest(fs, inflate);
      hide PlainStream, ReadUint16, OnePiece, Frames, ValidFrames, Joined;
      var n, stream := |fs[0].payload|, PlainStream(s, obfuscated);
      FrontFrame(fs, stream);
      var s2 := FrameNext(s, obfuscated, left, inflate, fs[0], stream[2 + n..]);
      FramesFound(s2, obfuscated, left - 2 - n, inflate, fs[1..]);
    }
  }

  /** Where the file is one piece, a save that succeeds makes the raw save succeed, and what that writes
      are the frames whose inflated payloads the save writes, and nothing else. */
  lemma SaveAndRawAgree(s: Source, obfuscated: bool, left: uint32, inflate: Inflater)
    requires OnePiece(s) && Frames(s, obfuscated, left, inflate).Some?
    ensures Copied(s, obfuscated, left) == Some(Joined(Frames(s, obfuscated, left, inflate).value))
    ensures ValidFrames(Frames(s, obfuscated, left, inflate).value, inflate)
  {
    hide Frames, Copied, PlainStream, Joined, ValidFrames;
    var fs := Frames(s, obfuscated, left, inflate).value;
    FramesWhole(s, obfuscated, left, inflate, fs);
    CopiedWhole(s, obfuscated, left);
    assert PlainStream(s, obfuscated)[..left] == Joined(fs);
  }
}
